/** Edit distance of `cpp/src/distance.hpp`: the three-row dynamic program, the full table it
    keeps a window of, and the edit scripts whose minimal cost that table holds. */
module EditDistance {
  import opened Sequences

  // ---------- Edit scripts ----------

  /** One step of an edit script. A swap rewrites two adjacent elements at once, so neither of
      them can be edited again. */
  datatype Edit<T> =
    | Keep(c: T)
    | Substitute(a: T, b: T)
    | Insert(b: T)
    | Delete(a: T)
    | Swap(a: T, b: T)
  {
    /** What the step consumes from the source. */
    function Before(): seq<T> {
      match this
      case Keep(c) => [c]
      case Substitute(a, _) => [a]
      case Insert(_) => []
      case Delete(a) => [a]
      case Swap(a, b) => [a, b]
    }

    /** What the step leaves in the target. */
    function After(): seq<T> {
      match this
      case Keep(c) => [c]
      case Substitute(_, b) => [b]
      case Insert(b) => [b]
      case Delete(_) => []
      case Swap(a, b) => [b, a]
    }

    function Cost(): nat {
      if Keep? then 0 else 1
    }

    /** The step that undoes this one. */
    function Inverse(): Edit<T> {
      match this
      case Keep(c) => Keep(c)
      case Substitute(a, b) => Substitute(b, a)
      case Insert(b) => Delete(b)
      case Delete(a) => Insert(a)
      case Swap(a, b) => Swap(b, a)
    }

    /** The step seen from the other end of the sequences. */
    function Mirror(): Edit<T> {
      if Swap? then Swap(b, a) else this
    }
  }

  /** A script is applied from left to right; its last step is on the outside. */
  datatype Script<T> = Empty | Then(front: Script<T>, step: Edit<T>)

  function Source<T>(p: Script<T>): seq<T> {
    if p.Empty? then [] else Source(p.front) + p.step.Before()
  }

  function Target<T>(p: Script<T>): seq<T> {
    if p.Empty? then [] else Target(p.front) + p.step.After()
  }

  function Cost<T>(p: Script<T>): nat {
    if p.Empty? then 0 else Cost(p.front) + p.step.Cost()
  }

  /** Whether the script may be used: always when swaps are allowed, otherwise only without them. */
  predicate Allowed<T>(swaps: bool, p: Script<T>) {
    p.Then? ==> Allowed(swaps, p.front) && (p.step.Swap? ==> swaps)
  }

  ghost predicate Edits<T>(swaps: bool, p: Script<T>, s: seq<T>, t: seq<T>) {
    Allowed(swaps, p) && Source(p) == s && Target(p) == t
  }

  /** `d` is the cost of a cheapest script from `s` to `t`. */
  ghost predicate Cheapest<T(!new)>(swaps: bool, s: seq<T>, t: seq<T>, d: nat) {
    && (exists p :: Edits(swaps, p, s, t) && Cost(p) == d)
    && (forall p :: Edits(swaps, p, s, t) ==> d <= Cost(p))
  }

  // ---------- The table ----------

  function Min(a: nat, b: nat): nat {
    if b < a then b else a
  }

  /** Entry (i, j) of the table: the distance of the first i and the first j elements.
      Without swaps this is the Levenshtein table. */
  function Table<T(==)>(swaps: bool, s: seq<T>, t: seq<T>, i: nat, j: nat): nat
    requires i <= |s| && j <= |t|
  {
    if i == 0 then j
    else if j == 0 then i
    else
      var cost := if s[i - 1] == t[j - 1] then 0 else 1;
      var d := Min(Min(Table(swaps, s, t, i, j - 1) + 1, Table(swaps, s, t, i - 1, j) + 1),
                   Table(swaps, s, t, i - 1, j - 1) + cost);
      if swaps && i > 1 && j > 1 && s[i - 1] == t[j - 2] && t[j - 1] == s[i - 2]
      then Min(d, Table(swaps, s, t, i - 2, j - 2) + 1)
      else d
  }

  /** The value the loop returns; the distance of the two sequences. */
  function Distance<T(==)>(s: seq<T>, t: seq<T>): nat {
    Table(true, s, t, |s|, |t|)
  }

  function Levenshtein<T(==)>(s: seq<T>, t: seq<T>): nat {
    Table(false, s, t, |s|, |t|)
  }

  // ---------- The loop ----------

  /** `row` is the beginning of row i of the table. */
  ghost predicate HoldsRow<T>(row: seq<nat>, s: seq<T>, t: seq<T>, i: nat)
    requires i <= |s| && |row| <= |t| + 1
  {
    forall k :: 0 <= k < |row| ==> row[k] == Table(true, s, t, i, k)
  }

  /** `distance` and `icu_distance`: three rows, filled left to right and rotated after each row. */
  method ComputeDistance<T(==, !new)>(source: seq<T>, target: seq<T>) returns (result: nat)
    ensures result == Distance(source, target)
    ensures Cheapest(true, source, target, result)
  {
    var n, m := |source|, |target|;
    DistanceIsCheapest(true, source, target);
    if n == 0 { return m; }
    if m == 0 { return n; }

    var row1 := new nat[m + 1](_ => 0);
    var row2 := new nat[m + 1](_ => 0);
    var row3 := new nat[m + 1](_ => 0);
    for j := 0 to m + 1
      invariant forall k :: 0 <= k < j ==> row2[k] == k
    {
      row2[j] := j;
    }
    for i := 1 to n + 1
      invariant fresh(row1) && fresh(row2) && fresh(row3)
      invariant row1 != row3 && row2 != row3
      invariant row1.Length == row2.Length == row3.Length == m + 1
      invariant HoldsRow(row2[..], source, target, i - 1)
      invariant i > 1 ==> HoldsRow(row1[..], source, target, i - 2)
    {
      FillRow(source, target, i, row1, row2, row3);
      // Rotate the rows.
      row1 := CopyRow(row2);
      row2 := CopyRow(row3);
    }
    result := row2[m];
  }

  /** The inner loop: row i from the two rows above it. */
  method FillRow<T(==)>(source: seq<T>, target: seq<T>, i: nat, row1: array<nat>, row2: array<nat>, row3: array<nat>)
    requires 1 <= i <= |source|
    requires row1 != row3 && row2 != row3
    requires row1.Length == row2.Length == row3.Length == |target| + 1
    requires HoldsRow(row2[..], source, target, i - 1)
    requires i > 1 ==> HoldsRow(row1[..], source, target, i - 2)
    modifies row3
    ensures HoldsRow(row3[..], source, target, i)
  {
    row3[0] := i;
    for j := 1 to |target| + 1
      invariant HoldsRow(row3[..j], source, target, i)
    {
      assert row3[..j][j - 1] == row3[j - 1] && row2[..][j] == row2[j] && row2[..][j - 1] == row2[j - 1];
      assert j > 1 ==> row1[..][j - 2] == row1[j - 2];
      ghost var done := row3[..j];
      FillCell(source, target, i, j, row1, row2, row3);
      assert row3[..j + 1] == done + [row3[j]];
    }
    assert row3[..|target| + 1] == row3[..];
  }

  /** One cell computed from correct neighbours is the table's entry. */
  lemma EntryFromNeighbours<T>(s: seq<T>, t: seq<T>, i: nat, j: nat,
                               left: nat, up: nat, corner: nat, twoBack: nat, cell: nat)
    requires 1 <= i <= |s| && 1 <= j <= |t|
    requires left == Table(true, s, t, i, j - 1)
    requires up == Table(true, s, t, i - 1, j)
    requires corner == Table(true, s, t, i - 1, j - 1)
    requires i > 1 && j > 1 ==> twoBack == Table(true, s, t, i - 2, j - 2)
    requires
      var d := Min(Min(left + 1, up + 1), corner + if s[i - 1] == t[j - 1] then 0 else 1);
      cell == if i > 1 && j > 1 && s[i - 1] == t[j - 2] && t[j - 1] == s[i - 2]
              then Min(d, twoBack + 1) else d
    ensures cell == Table(true, s, t, i, j)
  {
  }

  /** One turn of it: a cell from its neighbours in the three rows. */
  method FillCell<T(==)>(
    source: seq<T>, target: seq<T>, i: nat, j: nat, row1: array<nat>, row2: array<nat>, row3: array<nat>)
    requires 1 <= i <= |source| && 1 <= j <= |target|
    requires row1 != row3 && row2 != row3
    requires row1.Length == row2.Length == row3.Length == |target| + 1
    requires row3[j - 1] == Table(true, source, target, i, j - 1)
    requires row2[j] == Table(true, source, target, i - 1, j)
    requires row2[j - 1] == Table(true, source, target, i - 1, j - 1)
    requires i > 1 && j > 1 ==> row1[j - 2] == Table(true, source, target, i - 2, j - 2)
    modifies row3
    ensures row3[j] == Table(true, source, target, i, j)
    ensures forall k :: 0 <= k < row3.Length && k != j ==> row3[k] == old(row3[k])
  {
    ghost var left, up, corner := row3[j - 1], row2[j], row2[j - 1];
    ghost var twoBack := if i > 1 && j > 1 then row1[j - 2] else 0;
    var si, tj := source[i - 1], target[j - 1];
    var cost := if si == tj then 0 else 1;
    row3[j] := Min(Min(row3[j - 1] + 1, row2[j] + 1), row2[j - 1] + cost);
    // A swap looks two rows back.
    if i > 1 && j > 1 && si == target[j - 2] && tj == source[i - 2] {
      row3[j] := Min(row3[j], row1[j - 2] + 1);
    }
    EntryFromNeighbours(source, target, i, j, left, up, corner, twoBack, row3[j]);
  }

  /** Assignment of one row vector to another copies its elements. */
  method CopyRow(row: array<nat>) returns (copy: array<nat>)
    ensures fresh(copy) && copy[..] == row[..]
  {
    copy := new nat[row.Length](i requires 0 <= i < row.Length reads row => row[i]);
  }

  // ---------- The table holds the cost of a cheapest script ----------

  /** Every table entry is reached by some script. */
  lemma {:induction false} TableHasScript<T>(swaps: bool, s: seq<T>, t: seq<T>, i: nat, j: nat)
    returns (p: Script<T>)
    requires i <= |s| && j <= |t|
    ensures Edits(swaps, p, s[..i], t[..j]) && Cost(p) == Table(swaps, s, t, i, j)
    decreases i + j
  {
    if i == 0 && j == 0 {
      p := Empty;
    } else {
      var i', j', e := TableOrigin(swaps, s, t, i, j);
      p := ExtendScript(swaps, s, t, i', j', e, i, j);
    }
  }

  /** Every entry but the first comes from an earlier one by one step. */
  lemma TableOrigin<T>(swaps: bool, s: seq<T>, t: seq<T>, i: nat, j: nat)
    returns (i': nat, j': nat, e: Edit<T>)
    requires i <= |s| && j <= |t| && i + j > 0
    ensures At(e.Before(), s, i', i) && At(e.After(), t, j', j) && (e.Swap? ==> swaps)
    ensures Table(swaps, s, t, i, j) == Table(swaps, s, t, i', j') + e.Cost()
  {
    if i == 0 {
      i', j', e := i, j - 1, Insert(t[j - 1]);
    } else if j == 0 {
      i', j', e := i - 1, j, Delete(s[i - 1]);
    } else if Table(swaps, s, t, i, j) == Table(swaps, s, t, i, j - 1) + 1 {
      i', j', e := i, j - 1, Insert(t[j - 1]);
    } else if Table(swaps, s, t, i, j) == Table(swaps, s, t, i - 1, j) + 1 {
      i', j', e := i - 1, j, Delete(s[i - 1]);
    } else {
      i', j', e := DiagonalOrigin(swaps, s, t, i, j);
    }
  }

  lemma DiagonalOrigin<T>(swaps: bool, s: seq<T>, t: seq<T>, i: nat, j: nat)
    returns (i': nat, j': nat, e: Edit<T>)
    requires 0 < i <= |s| && 0 < j <= |t|
    requires Table(swaps, s, t, i, j) != Table(swaps, s, t, i, j - 1) + 1
    requires Table(swaps, s, t, i, j) != Table(swaps, s, t, i - 1, j) + 1
    ensures At(e.Before(), s, i', i) && At(e.After(), t, j', j) && (e.Swap? ==> swaps)
    ensures Table(swaps, s, t, i, j) == Table(swaps, s, t, i', j') + e.Cost()
  {
    var corner := Table(swaps, s, t, i - 1, j - 1);
    if s[i - 1] == t[j - 1] && Table(swaps, s, t, i, j) == corner {
      i', j', e := i - 1, j - 1, Keep(s[i - 1]);
    } else if s[i - 1] != t[j - 1] && Table(swaps, s, t, i, j) == corner + 1 {
      i', j', e := i - 1, j - 1, Substitute(s[i - 1], t[j - 1]);
    } else {
      i', j', e := i - 2, j - 2, Swap(s[i - 2], s[i - 1]);
    }
  }

  /** `part` stands in `s` between positions i and i'. */
  ghost predicate At<T>(part: seq<T>, s: seq<T>, i: nat, i': nat) {
    && i + |part| == i' <= |s|
    && (|part| > 0 ==> part[0] == s[i])
    && (|part| > 1 ==> part[1] == s[i + 1])
  }

  lemma TakeMore<T>(part: seq<T>, s: seq<T>, i: nat, i': nat)
    requires At(part, s, i, i') && |part| <= 2
    ensures s[..i'] == s[..i] + part
  {
  }

  lemma {:induction false} ExtendScript<T>(
    swaps: bool, s: seq<T>, t: seq<T>, i: nat, j: nat, e: Edit<T>, i': nat, j': nat)
    returns (p: Script<T>)
    requires At(e.Before(), s, i, i') && At(e.After(), t, j, j') && (e.Swap? ==> swaps)
    ensures Edits(swaps, p, s[..i'], t[..j']) && Cost(p) == Table(swaps, s, t, i, j) + e.Cost()
    decreases i' + j', 0
  {
    var q := TableHasScript(swaps, s, t, i, j);
    p := Then(q, e);
    TakeMore(e.Before(), s, i, i');
    TakeMore(e.After(), t, j, j');
  }

  lemma SplitLast<T>(front: seq<T>, part: seq<T>, s: seq<T>, i: nat)
    requires i <= |s| && s[..i] == front + part && |part| <= 2
    ensures |front| == i - |part| && front == s[..|front|] && At(part, s, |front|, i)
  {
    assert forall k :: 0 <= k < |part| ==> s[..i][|front| + k] == part[k];
  }

  /** No script is cheaper than its table entry. */
  lemma {:induction false} TableIsLowerBound<T>(swaps: bool, s: seq<T>, t: seq<T>, i: nat, j: nat, p: Script<T>)
    requires i <= |s| && j <= |t| && Edits(swaps, p, s[..i], t[..j])
    ensures Table(swaps, s, t, i, j) <= Cost(p)
    decreases p
  {
    if p.Then? {
      var q, e := p.front, p.step;
      var i', j' := i - |e.Before()|, j - |e.After()|;
      SplitLast(Source(q), e.Before(), s, i);
      SplitLast(Target(q), e.After(), t, j);
      TableIsLowerBound(swaps, s, t, i', j', q);
      TableStep(swaps, s, t, i', j', e, i, j);
    }
  }

  /** An entry is at most each neighbour it may be computed from, plus the cost of the step. */
  lemma {:induction false} TableNeighbours<T>(swaps: bool, s: seq<T>, t: seq<T>, i: nat, j: nat)
    requires i <= |s| && j <= |t|
    ensures j > 0 ==> Table(swaps, s, t, i, j) <= Table(swaps, s, t, i, j - 1) + 1
    ensures i > 0 ==> Table(swaps, s, t, i, j) <= Table(swaps, s, t, i - 1, j) + 1
    ensures i > 0 && j > 0 ==>
      Table(swaps, s, t, i, j) <= Table(swaps, s, t, i - 1, j - 1) + if s[i - 1] == t[j - 1] then 0 else 1
    ensures swaps && i > 1 && j > 1 && s[i - 1] == t[j - 2] && t[j - 1] == s[i - 2] ==>
      Table(swaps, s, t, i, j) <= Table(swaps, s, t, i - 2, j - 2) + 1
  {
  }

  lemma {:induction false} TableStep<T>(swaps: bool, s: seq<T>, t: seq<T>, i: nat, j: nat, e: Edit<T>, i': nat, j': nat)
    requires At(e.Before(), s, i, i') && At(e.After(), t, j, j') && (e.Swap? ==> swaps)
    ensures Table(swaps, s, t, i', j') <= Table(swaps, s, t, i, j) + e.Cost()
  {
    TableNeighbours(swaps, s, t, i', j');
    match e
    case Keep(_) => assert i' == i + 1 && j' == j + 1;
    case Substitute(_, _) => assert i' == i + 1 && j' == j + 1;
    case Insert(_) => assert i' == i && j' == j + 1;
    case Delete(_) => assert i' == i + 1 && j' == j;
    case Swap(_, _) => assert i' == i + 2 && j' == j + 2;
  }

  lemma {:induction false} DistanceIsCheapest<T(!new)>(swaps: bool, s: seq<T>, t: seq<T>)
    ensures Cheapest(swaps, s, t, Table(swaps, s, t, |s|, |t|))
  {
    assert s[..|s|] == s && t[..|t|] == t;
    var p := TableHasScript(swaps, s, t, |s|, |t|);
    forall q | Edits(swaps, q, s, t) ensures Table(swaps, s, t, |s|, |t|) <= Cost(q) {
      TableIsLowerBound(swaps, s, t, |s|, |t|, q);
    }
  }

  // ---------- Laws of the distance ----------

  /** Distances carry over along any map of scripts that keeps their cost. */
  lemma {:induction false} CheapestIsUnique<T(!new)>(swaps: bool, s: seq<T>, t: seq<T>, d: nat, d': nat)
    requires Cheapest(swaps, s, t, d) && Cheapest(swaps, s, t, d')
    ensures d == d'
  {
    var p :| Edits(swaps, p, s, t) && Cost(p) == d;
    var q :| Edits(swaps, q, s, t) && Cost(q) == d';
  }

  function InverseScript<T>(p: Script<T>): Script<T> {
    if p.Empty? then Empty else Then(InverseScript(p.front), p.step.Inverse())
  }

  lemma {:induction false} InverseEdits<T>(swaps: bool, p: Script<T>)
    requires Allowed(swaps, p)
    ensures Edits(swaps, InverseScript(p), Target(p), Source(p)) && Cost(InverseScript(p)) == Cost(p)
  {
    if p.Then? {
      InverseEdits(swaps, p.front);
    }
  }

  lemma {:induction false} DistanceBound<T(!new)>(swaps: bool, p: Script<T>, s: seq<T>, t: seq<T>)
    requires Edits(swaps, p, s, t)
    ensures Table(swaps, s, t, |s|, |t|) <= Cost(p)
  {
    DistanceIsCheapest(swaps, s, t);
  }

  lemma {:induction false} OptimalBound<T(!new)>(p: Script<T>, s: seq<T>, t: seq<T>)
    requires Source(p) == s && Target(p) == t
    ensures Distance(s, t) <= Cost(p)
  {
    AnyScriptAllowed(p);
    DistanceBound(true, p, s, t);
  }

  lemma {:induction false} BestScript<T(!new)>(swaps: bool, s: seq<T>, t: seq<T>) returns (p: Script<T>)
    ensures Edits(swaps, p, s, t) && Cost(p) == Table(swaps, s, t, |s|, |t|)
  {
    DistanceIsCheapest(swaps, s, t);
    p :| Edits(swaps, p, s, t) && Cost(p) == Table(swaps, s, t, |s|, |t|);
  }

  lemma {:induction false} DistanceSymmetric<T(!new)>(s: seq<T>, t: seq<T>)
    ensures Distance(s, t) == Distance(t, s)
  {
    var p := BestScript(true, s, t);
    InverseEdits(true, p);
    OptimalBound(InverseScript(p), t, s);
    var q := BestScript(true, t, s);
    InverseEdits(true, q);
    OptimalBound(InverseScript(q), s, t);
  }

  /** The script that first takes step `e`. */
  function Prepend<T>(e: Edit<T>, p: Script<T>): Script<T> {
    if p.Empty? then Then(Empty, e) else Then(Prepend(e, p.front), p.step)
  }

  lemma {:induction false} PrependEdits<T>(e: Edit<T>, p: Script<T>)
    ensures Source(Prepend(e, p)) == e.Before() + Source(p)
    ensures Target(Prepend(e, p)) == e.After() + Target(p)
    ensures Cost(Prepend(e, p)) == e.Cost() + Cost(p)
  {
    if p.Then? {
      PrependEdits(e, p.front);
    }
  }

  lemma {:induction false} AnyScriptAllowed<T>(p: Script<T>)
    ensures Allowed(true, p)
  {
    if p.Then? {
      AnyScriptAllowed(p.front);
    }
  }

  function MirrorScript<T>(p: Script<T>): Script<T> {
    if p.Empty? then Empty else Prepend(p.step.Mirror(), MirrorScript(p.front))
  }

  lemma {:induction false} MirrorEdits<T>(p: Script<T>)
    ensures Source(MirrorScript(p)) == Reversed(Source(p))
    ensures Target(MirrorScript(p)) == Reversed(Target(p))
    ensures Cost(MirrorScript(p)) == Cost(p)
  {
    if p.Then? {
      MirrorEdits(p.front);
      PrependEdits(p.step.Mirror(), MirrorScript(p.front));
      MirrorStep(p.step);
      ReversedConcat(Source(p.front), p.step.Before());
      ReversedConcat(Target(p.front), p.step.After());
    }
  }

  lemma MirrorStep<T>(e: Edit<T>)
    ensures e.Mirror().Before() == Reversed(e.Before()) && e.Mirror().After() == Reversed(e.After())
  {
    if e.Swap? {
      ReversedConcat([e.a], [e.b]);
      ReversedConcat([e.b], [e.a]);
    }
  }

  lemma {:induction false} DistanceReversed<T(!new)>(s: seq<T>, t: seq<T>)
    ensures Distance(Reversed(s), Reversed(t)) == Distance(s, t)
  {
    var p := BestScript(true, s, t);
    MirrorEdits(p);
    OptimalBound(MirrorScript(p), Reversed(s), Reversed(t));
    var q := BestScript(true, Reversed(s), Reversed(t));
    MirrorEdits(q);
    ReversedTwice(s);
    ReversedTwice(t);
    OptimalBound(MirrorScript(q), s, t);
  }

  /** A script read from its front: its first step and the rest. */
  lemma {:induction false} FirstStep<T>(p: Script<T>) returns (e: Edit<T>, r: Script<T>)
    requires p.Then?
    ensures Source(p) == e.Before() + Source(r)
    ensures Target(p) == e.After() + Target(r)
    ensures Cost(p) == e.Cost() + Cost(r)
    ensures Steps(r) < Steps(p)
  {
    if p.front.Empty? {
      e, r := p.step, Empty;
      assert [] + e.Before() == e.Before() + [] && [] + e.After() == e.After() + [];
    } else {
      var q;
      e, q := FirstStep(p.front);
      r := Then(q, p.step);
      ConcatAssociates(e.Before(), Source(q), p.step.Before());
      ConcatAssociates(e.After(), Target(q), p.step.After());
    }
  }

  function Steps<T>(p: Script<T>): nat {
    if p.Empty? then 0 else Steps(p.front) + 1
  }

  lemma SameHead<T>(front: seq<T>, rest: seq<T>, c: T, s: seq<T>)
    requires front + rest == [c] + s
    ensures front == [] ==> rest == [c] + s
    ensures |front| == 1 ==> front[0] == c && rest == s
    ensures |front| == 2 ==> front[0] == c && [front[1]] + rest == s
  {
    var whole := front + rest;
    assert rest == whole[|front|..] && s == whole[1..];
  }

  /** Dropping the first element of the target costs at most one step more. */
  lemma {:induction false} DropFirstOfTarget<T>(p: Script<T>, c: T, t: seq<T>) returns (q: Script<T>)
    requires Target(p) == [c] + t
    ensures Source(q) == Source(p) && Target(q) == t && Cost(q) <= Cost(p) + 1
    decreases Steps(p)
  {
    var e, r := FirstStep(p);
    SameHead(e.After(), Target(r), c, t);
    match e
    case Insert(_) => q := r;
    case Delete(a) =>
      var r' := DropFirstOfTarget(r, c, t);
      PrependEdits(e, r');
      q := Prepend(e, r');
    case Keep(_) => PrependEdits(Delete(c), r); q := Prepend(Delete(c), r);
    case Substitute(a, _) => PrependEdits(Delete(a), r); q := Prepend(Delete(a), r);
    case Swap(a, b) => q := HalfOfSwap(a, b, r);
  }

  /** The swapped pair loses the element it put first. */
  lemma HalfOfSwap<T>(a: T, b: T, r: Script<T>) returns (q: Script<T>)
    ensures Source(q) == [a, b] + Source(r) && Target(q) == [a] + Target(r) && Cost(q) == 1 + Cost(r)
  {
    PrependEdits(Delete(b), r);
    PrependEdits(Keep(a), Prepend(Delete(b), r));
    q := Prepend(Keep(a), Prepend(Delete(b), r));
    assert [a] + ([b] + Source(r)) == [a, b] + Source(r);
    assert [] + Target(r) == Target(r);
  }

  lemma {:induction false} DropFirstOfSource<T>(p: Script<T>, c: T, s: seq<T>) returns (q: Script<T>)
    requires Source(p) == [c] + s
    ensures Source(q) == s && Target(q) == Target(p) && Cost(q) <= Cost(p) + 1
  {
    AnyScriptAllowed(p);
    InverseEdits(true, p);
    var r := DropFirstOfTarget(InverseScript(p), c, s);
    AnyScriptAllowed(r);
    InverseEdits(true, r);
    q := InverseScript(r);
  }

  /** Taking a common first element off both ends of a script costs nothing. */
  lemma {:induction false} StripFirst<T>(p: Script<T>, c: T, s: seq<T>, t: seq<T>) returns (q: Script<T>)
    requires Source(p) == [c] + s && Target(p) == [c] + t
    ensures Source(q) == s && Target(q) == t && Cost(q) <= Cost(p)
  {
    var e, r := FirstStep(p);
    SameHead(e.Before(), Source(r), c, s);
    SameHead(e.After(), Target(r), c, t);
    match e
    case Keep(_) => q := r;
    case Substitute(_, _) => q := r;
    case Delete(_) => q := DropFirstOfTarget(r, c, t);
    case Insert(_) => q := DropFirstOfSource(r, c, s);
    case Swap(_, _) => PrependEdits(Keep(c), r); q := Prepend(Keep(c), r);
  }

  lemma {:induction false} DistanceCommonPrefix<T(!new)>(c: seq<T>, s: seq<T>, t: seq<T>)
    ensures Distance(c + s, c + t) == Distance(s, t)
  {
    if c == [] {
      assert c + s == s && c + t == t;
    } else {
      var s', t' := c[1..] + s, c[1..] + t;
      assert c + s == [c[0]] + s' && c + t == [c[0]] + t';
      var p := BestScript(true, c + s, c + t);
      var q := StripFirst(p, c[0], s', t');
      OptimalBound(q, s', t');
      var r := BestScript(true, s', t');
      PrependEdits(Keep(c[0]), r);
      OptimalBound(Prepend(Keep(c[0]), r), c + s, c + t);
      DistanceCommonPrefix(c[1..], s, t);
    }
  }

  lemma {:induction false} DistanceCommonSuffix<T(!new)>(s: seq<T>, t: seq<T>, c: seq<T>)
    ensures Distance(s + c, t + c) == Distance(s, t)
  {
    DistanceReversed(s + c, t + c);
    ReversedConcat(s, c);
    ReversedConcat(t, c);
    DistanceCommonPrefix(Reversed(c), Reversed(s), Reversed(t));
    DistanceReversed(s, t);
  }

  lemma {:induction false} ScriptLengths<T>(p: Script<T>)
    ensures |Source(p)| - |Target(p)| <= Cost(p) && |Target(p)| - |Source(p)| <= Cost(p)
    ensures Cost(p) == 0 ==> Source(p) == Target(p)
  {
    if p.Then? {
      ScriptLengths(p.front);
    }
  }

  lemma {:induction false} TableUpperBound<T>(swaps: bool, s: seq<T>, t: seq<T>, i: nat, j: nat)
    requires i <= |s| && j <= |t|
    ensures Table(swaps, s, t, i, j) <= if i < j then j else i
    decreases i + j
  {
    if i > 0 && j > 0 {
      TableUpperBound(swaps, s, t, i - 1, j - 1);
      TableNeighbours(swaps, s, t, i, j);
    }
  }

  lemma {:induction false} DistanceBetweenLengths<T(!new)>(s: seq<T>, t: seq<T>)
    ensures |s| - |t| <= Distance(s, t) && |t| - |s| <= Distance(s, t)
    ensures Distance(s, t) <= |s| || Distance(s, t) <= |t|
  {
    var p := BestScript(true, s, t);
    ScriptLengths(p);
    TableUpperBound(true, s, t, |s|, |t|);
  }

  lemma {:induction false} DistanceZero<T(!new)>(s: seq<T>, t: seq<T>)
    ensures Distance(s, t) == 0 <==> s == t
  {
    var p := BestScript(true, s, t);
    ScriptLengths(p);
    if s == t {
      DistanceCommonPrefix(s, [], []);
      assert s + [] == s;
    }
  }

  /** Every swap replaced by two substitutions. */
  lemma {:induction false} WithoutSwaps<T>(p: Script<T>) returns (q: Script<T>)
    ensures Edits(false, q, Source(p), Target(p)) && Cost(q) <= 2 * Cost(p)
  {
    if p.Empty? {
      q := Empty;
    } else {
      var e := p.step;
      var r := WithoutSwaps(p.front);
      if e.Swap? {
        q := Then(Then(r, Substitute(e.a, e.b)), Substitute(e.b, e.a));
        assert Source(r) + [e.a] + [e.b] == Source(r) + [e.a, e.b];
        assert Target(r) + [e.b] + [e.a] == Target(r) + [e.b, e.a];
      } else {
        q := Then(r, e);
      }
    }
  }

  lemma {:induction false} LevenshteinBetween<T(!new)>(s: seq<T>, t: seq<T>)
    ensures Distance(s, t) <= Levenshtein(s, t) <= 2 * Distance(s, t)
  {
    var p := BestScript(false, s, t);
    OptimalBound(p, s, t);
    var q := BestScript(true, s, t);
    var r := WithoutSwaps(q);
    DistanceBound(false, r, s, t);
  }

  // ---------- The triangle inequality ----------

  /** What a last step leaves in the sequence, when it leaves something. */
  lemma LastElements<T>(front: seq<T>, a: T, front': seq<T>, b: T)
    requires front + [a] == front' + [b]
    ensures front == front' && a == b
  {
    assert (front + [a])[|front|] == (front' + [b])[|front'|];
    assert (front + [a])[..|front|] == (front' + [b])[..|front'|];
  }

  /** One step after another on the same element, appended as one step or none. */
  function Append<T>(r: Script<T>, d: Edit<T>, e: Edit<T>): Script<T>
    requires d.Keep? || d.Substitute? || d.Insert?
    requires e.Keep? || e.Substitute? || e.Delete?
  {
    if d.Insert? then
      if e.Delete? then r else Then(r, Insert(e.After()[0]))
    else if e.Delete? then Then(r, Delete(d.Before()[0]))
    else Then(r, if d.Keep? then e else if e.Keep? then d else Substitute(d.a, e.b))
  }

  /** Two scripts without swaps, one after the other, done as one. */
  lemma {:induction false} Compose<T>(p: Script<T>, q: Script<T>) returns (r: Script<T>)
    requires Allowed(false, p) && Allowed(false, q) && Target(p) == Source(q)
    ensures Edits(false, r, Source(p), Target(q)) && Cost(r) <= Cost(p) + Cost(q)
    decreases Steps(p) + Steps(q)
  {
    if q.Then? && q.step.Insert? {
      r := Compose(p, q.front);
      r := Then(r, q.step);
    } else if p.Then? && p.step.Delete? {
      r := Compose(p.front, q);
      r := Then(r, p.step);
    } else if p.Empty? {
      assert q.Then? ==> |Source(q)| > 0;
      r := Empty;
    } else {
      assert |Target(p)| > 0 && q.Then?;
      LastElements(Target(p.front), p.step.After()[0], Source(q.front), q.step.Before()[0]);
      r := Compose(p.front, q.front);
      r := Append(r, p.step, q.step);
    }
  }

  /** Without swaps the distance is a metric. */
  lemma LevenshteinTriangle<T(!new)>(s: seq<T>, t: seq<T>, u: seq<T>)
    ensures Levenshtein(s, u) <= Levenshtein(s, t) + Levenshtein(t, u)
  {
    var p := BestScript(false, s, t);
    var q := BestScript(false, t, u);
    var r := Compose(p, q);
    DistanceBound(false, r, s, u);
  }

  /** The triangle inequality holds where neither way needs a swap, and always up to a factor of two. */
  lemma TriangleWithoutSwaps<T(!new)>(s: seq<T>, t: seq<T>, u: seq<T>)
    ensures Distance(s, u) <= Levenshtein(s, t) + Levenshtein(t, u)
    ensures Distance(s, t) == Levenshtein(s, t) && Distance(t, u) == Levenshtein(t, u) ==>
      Distance(s, u) <= Distance(s, t) + Distance(t, u)
    ensures Distance(s, u) <= 2 * (Distance(s, t) + Distance(t, u))
  {
    LevenshteinTriangle(s, t, u);
    LevenshteinBetween(s, u);
    LevenshteinBetween(s, t);
    LevenshteinBetween(t, u);
  }

  predicate Constant<T(==)>(t: seq<T>) {
    forall k :: 0 < k < |t| ==> t[k - 1] == t[k]
  }

  lemma ConstantFront<T>(front: seq<T>, part: seq<T>)
    requires Constant(front + part)
    ensures Constant(front) && Constant(part)
  {
    var t := front + part;
    assert forall k :: 0 <= k < |front| ==> front[k] == t[k];
    assert forall k :: 0 <= k < |part| ==> part[k] == t[|front| + k];
  }

  /** In a constant sequence a swap changes nothing. */
  lemma {:induction false} SwapsAreIdle<T>(p: Script<T>) returns (q: Script<T>)
    requires Constant(Target(p))
    ensures Edits(false, q, Source(p), Target(p)) && Cost(q) <= Cost(p)
  {
    if p.Empty? {
      q := Empty;
    } else {
      var e := p.step;
      ConstantFront(Target(p.front), e.After());
      var r := SwapsAreIdle(p.front);
      if e.Swap? {
        assert e.After()[0] == e.After()[1];
        q := Then(Then(r, Keep(e.a)), Keep(e.a));
        assert Source(r) + [e.a] + [e.a] == Source(r) + [e.a, e.a];
        assert Target(r) + [e.a] + [e.a] == Target(r) + [e.a, e.a];
      } else {
        q := Then(r, e);
      }
    }
  }

  lemma ConstantNeedsNoSwaps<T(!new)>(s: seq<T>, t: seq<T>)
    requires Constant(t)
    ensures Distance(s, t) == Levenshtein(s, t) && Distance(t, s) == Levenshtein(t, s)
  {
    var p := BestScript(true, s, t);
    var q := SwapsAreIdle(p);
    DistanceBound(false, q, s, t);
    InverseEdits(false, q);
    DistanceBound(false, InverseScript(q), t, s);
    DistanceSymmetric(s, t);
    LevenshteinBetween(s, t);
    LevenshteinBetween(t, s);
  }

  /** The pair that breaks the triangle inequality: swapping it and then inserting between costs
      two, but no single script may edit the swapped pair again. */
  lemma SwapThenInsert<T(!new)>(x: T, y: T, z: T)
    requires x != y && z != x && z != y
    ensures Distance([y, x], [x, y]) == 1 && Distance([x, y], [x, z, y]) == 1 && Distance([y, x], [x, z, y]) == 3
  {
    SwapDistance(x, y);
    InsertDistance(x, y, z);
    BothDistance(x, y, z);
  }

  lemma SwapDistance<T>(x: T, y: T)
    requires x != y
    ensures Distance([y, x], [x, y]) == 1
  {
    var s, t := [y, x], [x, y];
    assert Table(true, s, t, 1, 1) == 1 && Table(true, s, t, 1, 2) == 1 && Table(true, s, t, 2, 1) == 1;
  }

  lemma InsertDistance<T>(x: T, y: T, z: T)
    requires x != y && z != x && z != y
    ensures Distance([x, y], [x, z, y]) == 1
  {
    var s, t := [x, y], [x, z, y];
    assert Table(true, s, t, 1, 1) == 0 && Table(true, s, t, 1, 2) == 1 && Table(true, s, t, 1, 3) == 2;
    assert Table(true, s, t, 2, 2) == 1;
  }

  lemma BothDistance<T>(x: T, y: T, z: T)
    requires x != y && z != x && z != y
    ensures Distance([y, x], [x, z, y]) == 3
  {
    var s, t := [y, x], [x, z, y];
    assert Table(true, s, t, 1, 1) == 1 && Table(true, s, t, 1, 2) == 2 && Table(true, s, t, 1, 3) == 2;
    assert Table(true, s, t, 2, 1) == 1 && Table(true, s, t, 2, 2) == 2;
  }

  /** The distance of two sequences with the same ends is that of their middles. */
  lemma Between<T(!new)>(a: seq<T>, s: seq<T>, t: seq<T>, b: seq<T>)
    ensures Distance(a + s + b, a + t + b) == Distance(s, t)
  {
    DistanceCommonSuffix(a + s, a + t, b);
    DistanceCommonPrefix(a, s, t);
  }

  /** Every sequence that is not constant is a way with a detour shorter than the direct distance. */
  lemma DetourThrough<T(!new)>(t: seq<T>, k: nat, z: T) returns (s: seq<T>, u: seq<T>)
    requires 0 < k < |t| && t[k - 1] != t[k] && z != t[k - 1] && z != t[k]
    ensures Distance(s, t) == 1 && Distance(t, u) == 1 && Distance(s, u) == 3
  {
    var x, y := t[k - 1], t[k];
    var a, b := t[..k - 1], t[k + 1..];
    s, u := a + [y, x] + b, a + [x, z, y] + b;
    assert t == a + [x, y] + b;
    SwapThenInsert(x, y, z);
    Between(a, [y, x], [x, y], b);
    Between(a, [x, y], [x, z, y], b);
    Between(a, [y, x], [x, z, y], b);
  }

  /** When there are at least three elements to choose from, the triangle inequality holds on every
      way through `t` if and only if all elements of `t` are equal. */
  lemma TriangleThrough<T(!new)>(t: seq<T>, third: (T, T) -> T)
    requires forall x, y :: third(x, y) != x && third(x, y) != y
    ensures (forall s, u :: Distance(s, u) <= Distance(s, t) + Distance(t, u)) <==> Constant(t)
  {
    if Constant(t) {
      forall s, u ensures Distance(s, u) <= Distance(s, t) + Distance(t, u) {
        ConstantNeedsNoSwaps(s, t);
        ConstantNeedsNoSwaps(u, t);
        TriangleWithoutSwaps(s, t, u);
      }
    } else {
      var k :| 0 < k < |t| && t[k - 1] != t[k];
      var s, u := DetourThrough(t, k, third(t[k - 1], t[k]));
      assert Distance(s, u) > Distance(s, t) + Distance(t, u);
    }
  }

  /** The inequality fails for texts: CA to AC is one swap and AC to ABC one insertion. */
  lemma TriangleInequalityFails()
    ensures Distance("CA", "AC") == 1 && Distance("AC", "ABC") == 1 && Distance("CA", "ABC") == 3
  {
    SwapThenInsert('A', 'C', 'B');
  }
}
