/** Over which alphabets the distance of `cpp/src/distance.hpp` is a metric. */
module Triangles {
  import opened Sequences
  import opened EditDistance

  // ---------- One step at a time ----------

  /** The last step of a cheapest script. */
  lemma LastOfBest<T(!new)>(s: seq<T>, t: seq<T>) returns (s': seq<T>, t': seq<T>, e: Edit<T>)
    requires s != [] || t != []
    ensures s == s' + e.Before() && t == t' + e.After()
    ensures Distance(s', t') + e.Cost() <= Distance(s, t)
  {
    var p := BestScript(true, s, t);
    s', t', e := Source(p.front), Target(p.front), p.step;
    OptimalBound(p.front, s', t');
  }

  /** One more step costs at most its own cost. */
  lemma Extend<T(!new)>(s: seq<T>, t: seq<T>, e: Edit<T>)
    ensures Distance(s + e.Before(), t + e.After()) <= Distance(s, t) + e.Cost()
  {
    var p := BestScript(true, s, t);
    OptimalBound(Then(p, e), s + e.Before(), t + e.After());
  }

  lemma ExtendByDelete<T(!new)>(s: seq<T>, t: seq<T>, a: T)
    ensures Distance(s + [a], t) <= Distance(s, t) + 1
  {
    Extend(s, t, Delete(a));
    assert t + [] == t;
  }

  lemma ExtendByInsert<T(!new)>(s: seq<T>, t: seq<T>, b: T)
    ensures Distance(s, t + [b]) <= Distance(s, t) + 1
  {
    Extend(s, t, Insert(b));
    assert s + [] == s;
  }

  lemma ExtendTwice<T(!new)>(s: seq<T>, t: seq<T>, d: Edit<T>, e: Edit<T>)
    ensures Distance(s + (d.Before() + e.Before()), t + (d.After() + e.After())) <= Distance(s, t) + d.Cost() + e.Cost()
  {
    Extend(s, t, d);
    Extend(s + d.Before(), t + d.After(), e);
    ConcatAssociates(s, d.Before(), e.Before());
    ConcatAssociates(t, d.After(), e.After());
  }

  lemma Ends<T>(s: seq<T>, x: T, s': seq<T>, y: T)
    requires s + [x] == s' + [y]
    ensures s == s' && x == y
  {
    LastElements(s, x, s', y);
  }

  lemma EndsOfTwo<T>(s: seq<T>, x: T, s': seq<T>, a: T, b: T)
    requires s + [x] == s' + [a, b]
    ensures s == s' + [a] && x == b
  {
    assert s' + [a, b] == (s' + [a]) + [b];
    LastElements(s, x, s' + [a], b);
  }

  /** All elements are among two. */
  ghost predicate Over<T>(p: T, q: T, s: seq<T>) {
    forall x :: x in s ==> x == p || x == q
  }

  lemma OverParts<T>(p: T, q: T, a: seq<T>, b: seq<T>)
    ensures Over(p, q, a + b) <==> Over(p, q, a) && Over(p, q, b)
  {
    assert forall x :: x in a + b <==> x in a || x in b;
  }

  /** Dropping the last element of the target costs at most one step. */
  lemma {:induction false} DropLast<T(!new)>(s: seq<T>, t: seq<T>, d: T)
    ensures Distance(s, t) <= Distance(s, t + [d]) + 1
    decreases |s|
  {
    var s', t', e := LastOfBest(s, t + [d]);
    match e
    case Insert(b) =>
      Ends(t, d, t', b);
      assert s' == s' + [];
    case Delete(a) =>
      assert t' == t' + [];
      DropLast(s', t, d);
      ExtendByDelete(s', t, a);
    case Keep(a) =>
      Ends(t, d, t', a);
      ExtendByDelete(s', t, a);
    case Substitute(a, b) =>
      Ends(t, d, t', b);
      ExtendByDelete(s', t, a);
    case Swap(a, b) =>
      EndsOfTwo(t, d, t', b, a);
      ExtendTwice(s', t', Delete(a), Keep(b));
      assert [a] + [b] == [a, b] && [] + [b] == [b];
  }

  /** Changing the last element of the target costs at most one step. */
  lemma {:induction false} ChangeLast<T(!new)>(s: seq<T>, t: seq<T>, d: T, x: T)
    ensures Distance(s, t + [x]) <= Distance(s, t + [d]) + 1
    decreases |s|
  {
    var s', t', e := LastOfBest(s, t + [d]);
    match e
    case Insert(b) =>
      Ends(t, d, t', b);
      Extend(s', t, Insert(x));
    case Delete(a) =>
      assert t' == t' + [];
      ChangeLast(s', t, d, x);
      ExtendByDelete(s', t + [x], a);
    case Keep(a) =>
      Ends(t, d, t', a);
      Extend(s', t, Substitute(a, x));
    case Substitute(a, b) =>
      Ends(t, d, t', b);
      Extend(s', t, Substitute(a, x));
    case Swap(a, b) =>
      EndsOfTwo(t, d, t', b, a);
      ExtendTwice(s', t', Substitute(a, b), Substitute(b, x));
      assert [a] + [b] == [a, b] && [b] + [x] == [b, x];
      ConcatAssociates(t', [b], [x]);
  }

  /** A kept element and the one before it in the target change places for one step. */
  lemma {:induction false} KeptChangesPlaces<T(!new)>(p: T, q: T, s: seq<T>, t: seq<T>, x: T, y: T)
    requires x != y && Over(p, q, [x, y]) && Over(p, q, s)
    ensures Distance(s + [y], t + [y, x]) <= Distance(s, t + [x]) + 1
    decreases |s|
  {
    var s', t', e := LastOfBest(s, t + [x]);
    OverParts(p, q, s', e.Before());
    assert x in [x, y] && y in [x, y];
    match e
    case Insert(b) =>
      Ends(t, x, t', b);
      assert s' == s' + [];
      KeepThenInsert(s, t, x, y);
    case Delete(z) =>
      assert t' == t' + [] && e.Before() == [z] && z in e.Before();
      if z == y {
        KeptChangesPlaces(p, q, s', t, x, y);
        ExtendByDelete(s' + [y], t + [y, x], y);
      } else {
        assert z == x;
        DropLast(s', t, x);
        SwapAfter(s', t, x, y);
      }
    case Keep(a) =>
      Ends(t, x, t', a);
      SwapAfter(s', t, x, y);
    case Substitute(z, b) =>
      Ends(t, x, t', b);
      SubstituteBoth(s', t, z, y, y, x);
    case Swap(a, b) =>
      EndsOfTwo(t, x, t', b, a);
      assert e.Before() == [x, b] && b in e.Before();
      PairAndOne(s', t', x, b, y);
  }

  lemma KeepThenInsert<T(!new)>(s: seq<T>, t: seq<T>, x: T, y: T)
    ensures Distance(s + [y], t + [y, x]) <= Distance(s, t) + 1
  {
    ExtendTwice(s, t, Keep(y), Insert(x));
    assert [y] + [] == [y] && [y] + [x] == [y, x];
  }

  lemma SwapAfter<T(!new)>(s: seq<T>, t: seq<T>, x: T, y: T)
    ensures Distance(s + [x] + [y], t + [y, x]) <= Distance(s, t) + 1
  {
    Extend(s, t, Swap(x, y));
    assert s + [x, y] == s + [x] + [y];
  }

  lemma SubstituteBoth<T(!new)>(s: seq<T>, t: seq<T>, a: T, b: T, c: T, d: T)
    ensures Distance(s + [a] + [b], t + [c, d]) <= Distance(s, t) + (if a == c then 0 else 1) + if b == d then 0 else 1
  {
    ExtendTwice(s, t, if a == c then Keep(a) else Substitute(a, c), if b == d then Keep(b) else Substitute(b, d));
    assert s + ([a] + [b]) == s + [a] + [b] && t + ([c] + [d]) == t + [c, d];
  }

  /** From x, b, y to b, y, x when b is one of the other two. */
  lemma PairAndOne<T(!new)>(s: seq<T>, t: seq<T>, x: T, b: T, y: T)
    requires b == x || b == y
    ensures Distance(s + [x, b] + [y], t + [b] + [y, x]) <= Distance(s, t) + 2
  {
    if b == x {
      ExtendTwice(s, t, Keep(x), Swap(x, y));
      assert s + ([x] + [x, y]) == s + [x, b] + [y] && t + ([x] + [y, x]) == t + [b] + [y, x];
    } else {
      ExtendThrice(s, t, Substitute(x, y), Keep(y), Substitute(y, x));
      assert s + ([x] + ([y] + [y])) == s + [x, b] + [y] && t + ([y] + ([y] + [x])) == t + [b] + [y, x];
    }
  }

  lemma ExtendThrice<T(!new)>(s: seq<T>, t: seq<T>, c: Edit<T>, d: Edit<T>, e: Edit<T>)
    ensures Distance(s + (c.Before() + (d.Before() + e.Before())), t + (c.After() + (d.After() + e.After())))
      <= Distance(s, t) + c.Cost() + d.Cost() + e.Cost()
  {
    Extend(s, t, c);
    ExtendTwice(s + c.Before(), t + c.After(), d, e);
    ConcatAssociates(s, c.Before(), d.Before() + e.Before());
    ConcatAssociates(t, c.After(), d.After() + e.After());
  }

  // ---------- A step anywhere in the target ----------

  /** The edited target: `part` between `a` and `b`. */
  function Around<T>(a: seq<T>, part: seq<T>, b: seq<T>): seq<T> {
    a + part + b
  }

  lemma AroundMore<T>(a: seq<T>, part: seq<T>, b: seq<T>, more: seq<T>)
    ensures Around(a, part, b + more) == Around(a, part, b) + more
  {
  }

  lemma AroundNothing<T>(a: seq<T>, part: seq<T>)
    ensures Around(a, part, []) == a + part
  {
  }

  /** A swap at the end of the target costs at most one step. */
  lemma {:induction false} SwapAtEnd<T(!new)>(p: T, q: T, s: seq<T>, t: seq<T>, c: T, d: T)
    requires c != d && Over(p, q, s) && Over(p, q, t) && Over(p, q, [c, d])
    ensures Distance(s, t + [d, c]) <= Distance(s, t + [c, d]) + 1
    decreases |s| + |t| + 2, 0
  {
    var s', t', e := LastOfBest(s, t + [c, d]);
    OverParts(p, q, s', e.Before());
    assert c in [c, d] && d in [c, d];
    assert t + [c, d] == t + [c] + [d];
    match e
    case Insert(b) =>
      Ends(t + [c], d, t', b);
      assert s' == s' + [];
      NearEdit(p, q, s, t, Insert(d), [c]);
      assert Around(t, [d], [c]) == t + [d, c] && Around(t, [], [c]) == t + [c];
    case Delete(z) =>
      assert t' == t' + [];
      SwapAtEnd(p, q, s', t, c, d);
      ExtendByDelete(s', t + [d, c], z);
    case Keep(z) =>
      Ends(t + [c], d, t', z);
      KeptChangesPlaces(p, q, s', t, c, d);
    case Substitute(z, b) =>
      Ends(t + [c], d, t', b);
      assert e.Before() == [z] && z in e.Before();
      if z == d {
        KeptChangesPlaces(p, q, s', t, c, d);
      } else {
        ChangeLast(s', t, c, d);
        Extend(s', t + [d], Keep(c));
        assert t + [d] + [c] == t + [d, c];
      }
    case Swap(a, b) =>
      EndsOfTwo(t + [c], d, t', b, a);
      Ends(t, c, t', b);
      SubstituteBoth(s', t, d, c, d, c);
      assert s' + [d] + [c] == s' + [d, c];
  }

  lemma EditAtEnd<T(!new)>(p: T, q: T, s: seq<T>, t: seq<T>, e: Edit<T>)
    requires Over(p, q, s) && Over(p, q, t) && Over(p, q, e.Before()) && Over(p, q, e.After())
    ensures Distance(s, t + e.After()) <= Distance(s, t + e.Before()) + 1
    decreases |s| + |t| + |e.Before()|, 1
  {
    assert t + [] == t;
    match e
    case Keep(_) =>
    case Insert(x) => ExtendByInsert(s, t, x);
    case Delete(d) => DropLast(s, t, d);
    case Substitute(d, x) => ChangeLast(s, t, d, x);
    case Swap(c, d) =>
      if c != d {
        SwapAtEnd(p, q, s, t, c, d);
      }
  }

  /** The last step swaps the last element of the edited part with the one after it. */
  lemma SwapOverEdit<T(!new)>(p: T, q: T, s: seq<T>, t: seq<T>, e: Edit<T>, t': seq<T>, a: T, b: T)
    requires t + e.Before() == t' + [b]
    requires Over(p, q, [a, b]) && Over(p, q, e.Before()) && Over(p, q, e.After())
    ensures Distance(s + [a, b], t + e.After() + [a]) <= Distance(s, t') + 2
  {
    assert a in [a, b] && b in [a, b] && s + [a] + [b] == s + [a, b];
    match e
    case Keep(d) =>
      Ends(t, d, t', b);
      Extend(s, t, Swap(a, b));
      assert t + [d] + [a] == t + [b, a];
    case Insert(x) =>
      assert e.After() == [x] && x in e.After() && t + [] == t;
      InsertIntoSwap(s, t', a, b, x);
    case Delete(d) =>
      Ends(t, d, t', b);
      ExtendTwice(s, t, Keep(a), Delete(b));
      assert [a] + [b] == [a, b] && [a] + [] == [a] && t + [] == t;
    case Substitute(d, x) =>
      Ends(t, d, t', b);
      SubstituteBoth(s, t, a, b, x, a);
      assert t + [x] + [a] == t + [x, a];
    case Swap(c, d) =>
      assert e.Before() == [c, d] && c in e.Before();
      EndsOfTwo(t', b, t, c, d);
      SwapOverSwap(s, t, a, b, c);
  }

  lemma InsertIntoSwap<T(!new)>(s: seq<T>, t: seq<T>, a: T, b: T, x: T)
    requires x == a || x == b || a == b
    ensures Distance(s + [a, b], t + [b] + [x] + [a]) <= Distance(s, t) + 2
  {
    if x == a {
      ExtendTwice(s, t, Swap(a, b), Insert(a));
      assert [a, b] + [] == [a, b] && t + ([b, a] + [a]) == t + [b] + [x] + [a];
    } else if x == b {
      ExtendTwice(s, t, Insert(b), Swap(a, b));
      assert [] + [a, b] == [a, b] && t + ([b] + [b, a]) == t + [b] + [x] + [a];
    } else {
      ExtendThrice(s, t, Keep(a), Insert(x), Keep(b));
      assert [a] + ([] + [b]) == [a, b] && t + ([a] + ([x] + [b])) == t + [b] + [x] + [a];
    }
  }

  lemma SwapOverSwap<T(!new)>(s: seq<T>, t: seq<T>, a: T, b: T, c: T)
    requires c == a || c == b || a == b
    ensures Distance(s + [a, b], t + [b, c] + [a]) <= Distance(s, t + [c]) + 2
  {
    if c == b {
      Extend(s, t + [c], Swap(a, b));
      assert t + [c] + [b, a] == t + [b, c] + [a];
    } else {
      ChangeLast(s, t, c, b);
      SubstituteBoth(s, t + [b], a, b, c, a);
      assert s + [a] + [b] == s + [a, b] && t + [b] + [c, a] == t + [b, c] + [a];
    }
  }

  /** Over two elements, one more step in the target costs at most one. */
  lemma {:induction false} NearEdit<T(!new)>(p: T, q: T, s: seq<T>, a: seq<T>, e: Edit<T>, b: seq<T>)
    requires Over(p, q, s) && Over(p, q, a) && Over(p, q, b) && Over(p, q, e.Before()) && Over(p, q, e.After())
    ensures Distance(s, Around(a, e.After(), b)) <= Distance(s, Around(a, e.Before(), b)) + 1
    decreases |s| + |a| + |e.Before()| + |b|, 2
  {
    if b == [] {
      AroundNothing(a, e.Before());
      AroundNothing(a, e.After());
      EditAtEnd(p, q, s, a, e);
    } else {
      FrontAndLast(b);
      EditInside(p, q, s, a, e, b[..|b| - 1], b[|b| - 1]);
    }
  }

  lemma {:induction false} EditInside<T(!new)>(p: T, q: T, s: seq<T>, a: seq<T>, e: Edit<T>, b: seq<T>, y: T)
    requires Over(p, q, s) && Over(p, q, a) && Over(p, q, b + [y]) && Over(p, q, e.Before()) && Over(p, q, e.After())
    ensures Distance(s, Around(a, e.After(), b + [y])) <= Distance(s, Around(a, e.Before(), b + [y])) + 1
    decreases |s| + |a| + |e.Before()| + |b| + 1, 1
  {
    var t, u := Around(a, e.Before(), b), Around(a, e.After(), b);
    AroundMore(a, e.Before(), b, [y]);
    AroundMore(a, e.After(), b, [y]);
    var s', t', f := LastOfBest(s, t + [y]);
    OverParts(p, q, s', f.Before());
    OverParts(p, q, b, [y]);
    match f
    case Insert(z) =>
      Ends(t, y, t', z);
      assert s' == s' + [];
      NearEdit(p, q, s, a, e, b);
      ExtendByInsert(s, u, y);
    case Delete(z) =>
      assert t' == t' + [];
      NearEdit(p, q, s', a, e, b + [y]);
      ExtendByDelete(s', u + [y], z);
    case Keep(z) =>
      Ends(t, y, t', z);
      NearEdit(p, q, s', a, e, b);
      Extend(s', u, f);
    case Substitute(_, z) =>
      Ends(t, y, t', z);
      NearEdit(p, q, s', a, e, b);
      Extend(s', u, f);
    case Swap(v, z) =>
      EndsOfTwo(t, y, t', z, v);
      assert s == s' + [v, z];
      SwapInside(p, q, s', a, e, b, t', v, z);
  }

  lemma {:induction false} SwapInside<T(!new)>(
    p: T, q: T, s: seq<T>, a: seq<T>, e: Edit<T>, b: seq<T>, t': seq<T>, v: T, z: T)
    requires Over(p, q, s + [v, z]) && Over(p, q, a) && Over(p, q, b)
    requires Over(p, q, e.Before()) && Over(p, q, e.After())
    requires Around(a, e.Before(), b) == t' + [z]
    ensures Distance(s + [v, z], Around(a, e.After(), b) + [v]) <= Distance(s, t') + 2
    decreases |s| + |a| + |e.Before()| + |b| + 1, 3
  {
    OverParts(p, q, s, [v, z]);
    if b == [] {
      AroundNothing(a, e.Before());
      AroundNothing(a, e.After());
      SwapOverEdit(p, q, s, a, e, t', v, z);
    } else {
      var front, last := b[..|b| - 1], b[|b| - 1];
      FrontAndLast(b);
      OverParts(p, q, front, [last]);
      AroundMore(a, e.Before(), front, [last]);
      AroundMore(a, e.After(), front, [last]);
      Ends(Around(a, e.Before(), front), last, t', z);
      NearEdit(p, q, s, a, e, front);
      Extend(s, Around(a, e.After(), front), Swap(v, z));
      assert Around(a, e.After(), front) + [z, v] == Around(a, e.After(), front) + [z] + [v];
    }
  }

  // ---------- The triangle inequality ----------

  /** A whole script applied to a part of the target. */
  lemma {:induction false} ScriptInTarget<T(!new)>(p: T, q: T, s: seq<T>, r: Script<T>, b: seq<T>)
    requires Over(p, q, s) && Over(p, q, b) && OverScript(p, q, r)
    ensures Distance(s, Target(r) + b) <= Distance(s, Source(r) + b) + Cost(r)
    decreases r
  {
    if r.Then? {
      var e := r.step;
      OverScriptParts(p, q, r.front);
      if !e.Keep? {
        NearEdit(p, q, s, Target(r.front), e, b);
      }
      OverParts(p, q, e.Before(), b);
      ScriptInTarget(p, q, s, r.front, e.Before() + b);
      ConcatAssociates(Source(r.front), e.Before(), b);
      ConcatAssociates(Target(r.front), e.Before(), b);
    }
  }

  /** All elements a script mentions are among two. */
  ghost predicate OverScript<T>(p: T, q: T, r: Script<T>) {
    r.Then? ==> OverScript(p, q, r.front) && Over(p, q, r.step.Before()) && Over(p, q, r.step.After())
  }

  lemma {:induction false} OverScriptParts<T>(p: T, q: T, r: Script<T>)
    ensures OverScript(p, q, r) <==> Over(p, q, Source(r)) && Over(p, q, Target(r))
  {
    if r.Then? {
      OverScriptParts(p, q, r.front);
      OverParts(p, q, Source(r.front), r.step.Before());
      OverParts(p, q, Target(r.front), r.step.After());
    }
  }

  /** For sequences over two elements the triangle inequality always holds. */
  lemma TriangleOverTwo<T(!new)>(p: T, q: T, s: seq<T>, t: seq<T>, u: seq<T>)
    requires Over(p, q, s) && Over(p, q, t) && Over(p, q, u)
    ensures Distance(s, u) <= Distance(s, t) + Distance(t, u)
  {
    var r := BestScript(true, t, u);
    OverScriptParts(p, q, r);
    ScriptInTarget(p, q, s, r, []);
    assert t + [] == t && u + [] == u;
  }

  ghost predicate Uses<T>(alphabet: set<T>, s: seq<T>) {
    forall x :: x in s ==> x in alphabet
  }

  lemma AtMostTwo<T>(alphabet: set<T>, p: T) returns (q: T)
    requires p in alphabet && |alphabet| <= 2
    ensures forall s :: Uses(alphabet, s) ==> Over(p, q, s)
  {
    var others := alphabet - {p};
    q := p;
    if others != {} {
      q :| q in others;
      assert |others - {q}| == 0;
      assert forall x :: x in alphabet ==> x == p || x in others;
      assert forall x :: x in others ==> x == q || x in others - {q};
    } else {
      assert forall x :: x in alphabet ==> x == p || x in others;
    }
  }

  lemma ThreeElements<T>(alphabet: set<T>) returns (x: T, y: T, z: T)
    requires |alphabet| > 2
    ensures x in alphabet && y in alphabet && z in alphabet && x != y && z != x && z != y
  {
    x := SomeElement(alphabet);
    var others := alphabet - {x};
    assert |others| == |alphabet| - 1;
    y := SomeElement(others);
    assert |others - {y}| == |others| - 1;
    z := SomeElement(others - {y});
  }

  lemma SmallAlphabet<T(!new)>(alphabet: set<T>, s: seq<T>, t: seq<T>, u: seq<T>)
    requires |alphabet| <= 2 && Uses(alphabet, s) && Uses(alphabet, t) && Uses(alphabet, u)
    ensures Distance(s, u) <= Distance(s, t) + Distance(t, u)
  {
    if s == [] {
      DistanceBetweenLengths(s, u);
      DistanceBetweenLengths(s, t);
      DistanceBetweenLengths(t, u);
    } else {
      assert s[0] in s;
      var q := AtMostTwo(alphabet, s[0]);
      TriangleOverTwo(s[0], q, s, t, u);
    }
  }

  /** The distance of the sequences over an alphabet satisfies the triangle inequality if and only
      if the alphabet has at most two elements. */
  lemma TriangleOverAlphabet<T(!new)>(alphabet: set<T>)
    ensures |alphabet| <= 2 <==>
      forall s, t, u :: Uses(alphabet, s) && Uses(alphabet, t) && Uses(alphabet, u) ==>
        Distance(s, u) <= Distance(s, t) + Distance(t, u)
  {
    if |alphabet| <= 2 {
      forall s, t, u | Uses(alphabet, s) && Uses(alphabet, t) && Uses(alphabet, u)
        ensures Distance(s, u) <= Distance(s, t) + Distance(t, u)
      {
        SmallAlphabet(alphabet, s, t, u);
      }
    } else {
      var x, y, z := ThreeElements(alphabet);
      SwapThenInsert(x, y, z);
      assert Uses(alphabet, [y, x]) && Uses(alphabet, [x, y]) && Uses(alphabet, [x, z, y]);
    }
  }
}
