/** Sorted sequences under an arbitrary strict weak order: what the operations of
    `cpp/src/sorted_list.hpp` do to the elements. */
module SortedSequences {
  import opened Sequences

  type Less<!T> = (T, T) -> bool

  ghost predicate StrictWeakOrder<T(!new)>(less: Less<T>) {
    && (forall x :: !less(x, x))
    && (forall x, y, z :: less(x, y) && less(y, z) ==> less(x, z))
    && (forall x, y, z :: less(x, z) ==> less(x, y) || less(y, z))
  }

  predicate Equivalent<T>(less: Less<T>, x: T, y: T) {
    !less(x, y) && !less(y, x)
  }

  ghost predicate Sorted<T>(less: Less<T>, s: seq<T>) {
    forall i, j :: 0 <= i < j < |s| ==> !less(s[j], s[i])
  }

  /** No two elements are equivalent. */
  ghost predicate Unique<T>(less: Less<T>, s: seq<T>) {
    forall i, j :: 0 <= i < j < |s| ==> !Equivalent(less, s[i], s[j])
  }

  // ---------- The operations on values ----------

  /** The first position whose element does not come before x. */
  function LowerBound<T>(less: Less<T>, s: seq<T>, x: T): (k: nat)
    ensures k <= |s|
    ensures forall i :: 0 <= i < k ==> less(s[i], x)
    ensures k < |s| ==> !less(s[k], x)
  {
    if s == [] || !less(s[0], x) then 0 else LowerBound(less, s[1..], x) + 1
  }

  /** The position `find` returns, or the length of the list. */
  function Find<T>(less: Less<T>, s: seq<T>, x: T): nat {
    var k := LowerBound(less, s, x);
    if k < |s| && Equivalent(less, s[k], x) then k else |s|
  }

  function Add<T>(less: Less<T>, unique: bool, s: seq<T>, x: T): seq<T> {
    var k := LowerBound(less, s, x);
    if unique && Find(less, s, x) < |s| then s else s[..k] + [x] + s[k..]
  }

  function RemoveAt<T>(s: seq<T>, k: nat): seq<T>
    requires k < |s|
  {
    s[..k] + s[k + 1..]
  }

  function Remove<T>(less: Less<T>, s: seq<T>, x: T): seq<T> {
    var k := Find(less, s, x);
    if k < |s| then RemoveAt(s, k) else s
  }

  /** What a constructor from a range builds. */
  function AddAll<T>(less: Less<T>, unique: bool, xs: seq<T>): seq<T> {
    if xs == [] then [] else Add(less, unique, AddAll(less, unique, xs[..|xs| - 1]), xs[|xs| - 1])
  }

  // ---------- Searching ----------

  lemma BelowIsBefore<T(!new)>(less: Less<T>, s: seq<T>, k: nat, x: T)
    requires StrictWeakOrder(less) && Sorted(less, s) && k < |s| && less(s[k], x)
    ensures forall i :: 0 <= i <= k ==> less(s[i], x)
  {
  }

  lemma {:induction false} LowerBoundIsUnique<T(!new)>(less: Less<T>, s: seq<T>, x: T, k: nat)
    requires k <= |s|
    requires forall i :: 0 <= i < k ==> less(s[i], x)
    requires k < |s| ==> !less(s[k], x)
    ensures LowerBound(less, s, x) == k
  {
  }

  /** `find` returns the first equivalent element, if there is any. */
  lemma FindsFirst<T(!new)>(less: Less<T>, s: seq<T>, x: T)
    requires StrictWeakOrder(less) && Sorted(less, s)
    ensures var k := Find(less, s, x);
      && k <= |s|
      && (k < |s| ==> Equivalent(less, s[k], x))
      && forall i :: 0 <= i < k ==> !Equivalent(less, s[i], x)
  {
    var k := LowerBound(less, s, x);
    forall i | k <= i < |s| && !Equivalent(less, s[k], x) ensures !Equivalent(less, s[i], x) {
      assert less(x, s[k]);
      assert i > k ==> !less(s[i], s[k]);
    }
  }

  lemma AddSorted<T(!new)>(less: Less<T>, unique: bool, s: seq<T>, x: T)
    requires StrictWeakOrder(less) && Sorted(less, s)
    ensures Sorted(less, Add(less, unique, s, x))
  {
    var k := LowerBound(less, s, x);
    forall i | k <= i < |s| ensures !less(s[i], x) {
      assert i > k ==> !less(s[i], s[k]);
    }
    InsertedSorted(less, s, k, x);
  }

  lemma InsertedSorted<T(!new)>(less: Less<T>, s: seq<T>, k: nat, x: T)
    requires StrictWeakOrder(less) && Sorted(less, s) && k <= |s|
    requires forall i :: 0 <= i < k ==> less(s[i], x)
    requires forall i :: k <= i < |s| ==> !less(s[i], x)
    ensures Sorted(less, s[..k] + [x] + s[k..])
  {
    var r := s[..k] + [x] + s[k..];
    assert r[k] == x;
    assert forall i :: 0 <= i < k ==> r[i] == s[i];
    assert forall i :: k < i < |r| ==> r[i] == s[i - 1];
  }

  lemma AddUnique<T(!new)>(less: Less<T>, s: seq<T>, x: T)
    requires StrictWeakOrder(less) && Sorted(less, s) && Unique(less, s)
    ensures Unique(less, Add(less, true, s, x))
  {
    FindsFirst(less, s, x);
    if Find(less, s, x) == |s| {
      NoEquivalent(less, s, x);
    }
  }

  lemma NoEquivalent<T(!new)>(less: Less<T>, s: seq<T>, x: T)
    requires StrictWeakOrder(less) && Sorted(less, s) && Find(less, s, x) == |s|
    ensures forall i :: 0 <= i < |s| ==> !Equivalent(less, s[i], x)
  {
    FindsFirst(less, s, x);
  }

  // ---------- Stability ----------

  /** The elements equivalent to x, in their order. */
  function Class<T>(less: Less<T>, s: seq<T>, x: T): seq<T> {
    if s == [] then []
    else (if Equivalent(less, s[0], x) then [s[0]] else []) + Class(less, s[1..], x)
  }

  /** `r` is sorted and has, class by class, the elements of `s` in the order of `s`. */
  ghost predicate IsStableSort<T(!new)>(less: Less<T>, r: seq<T>, s: seq<T>) {
    Sorted(less, r) && forall x :: Class(less, r, x) == Class(less, s, x)
  }

  lemma {:induction false} ClassConcat<T>(less: Less<T>, s: seq<T>, t: seq<T>, x: T)
    ensures Class(less, s + t, x) == Class(less, s, x) + Class(less, t, x)
  {
    if s == [] {
      assert s + t == t;
    } else {
      assert (s + t)[0] == s[0] && (s + t)[1..] == s[1..] + t;
      ClassConcat(less, s[1..], t, x);
      var first := if Equivalent(less, s[0], x) then [s[0]] else [];
      assert first + Class(less, s[1..], x) + Class(less, t, x) == first + (Class(less, s[1..], x) + Class(less, t, x));
    }
  }

  lemma {:induction false} ClassEmpty<T>(less: Less<T>, s: seq<T>, x: T)
    requires forall i :: 0 <= i < |s| ==> !Equivalent(less, s[i], x)
    ensures Class(less, s, x) == []
  {
    if s != [] {
      ClassEmpty(less, s[1..], x);
    }
  }

  /** An element added to a list that allows duplicates becomes the first of its class. */
  lemma AddClass<T(!new)>(less: Less<T>, s: seq<T>, y: T, x: T)
    requires StrictWeakOrder(less) && Sorted(less, s)
    ensures Class(less, Add(less, false, s, y), x) == (if Equivalent(less, y, x) then [y] else []) + Class(less, s, x)
  {
    var k := LowerBound(less, s, y);
    var a, b := s[..k], s[k..];
    assert s == a + b && Add(less, false, s, y) == a + [y] + b;
    ClassConcat(less, a, b, x);
    ClassConcat(less, a + [y], b, x);
    ClassConcat(less, a, [y], x);
    if Equivalent(less, y, x) {
      ClassEmpty(less, a, x);
    }
  }

  lemma {:induction false} AddAllIsStableSort<T(!new)>(less: Less<T>, xs: seq<T>)
    requires StrictWeakOrder(less)
    ensures IsStableSort(less, AddAll(less, false, xs), Reversed(xs))
  {
    if xs != [] {
      var front, last := xs[..|xs| - 1], xs[|xs| - 1];
      AddAllIsStableSort(less, front);
      var s := AddAll(less, false, front);
      AddSorted(less, false, s, last);
      forall x ensures Class(less, Add(less, false, s, last), x) == Class(less, Reversed(xs), x) {
        AddClass(less, s, last, x);
        ClassFront(less, last, Reversed(front), x);
        assert Class(less, s, x) == Class(less, Reversed(front), x);
      }
    }
  }

  lemma ClassFront<T>(less: Less<T>, y: T, s: seq<T>, x: T)
    ensures Class(less, [y] + s, x) == (if Equivalent(less, y, x) then [y] else []) + Class(less, s, x)
  {
    assert ([y] + s)[1..] == s;
  }

  /** There is only one stable sort, so the list is exactly it. */
  lemma {:induction false} StableSortIsUnique<T(!new)>(less: Less<T>, a: seq<T>, b: seq<T>)
    requires StrictWeakOrder(less) && Sorted(less, a) && Sorted(less, b)
    requires forall x :: Class(less, a, x) == Class(less, b, x)
    ensures a == b
    decreases |a|
  {
    assert b != [] ==> Class(less, b, b[0]) != [] && Class(less, a, b[0]) == Class(less, b, b[0]);
    if a != [] {
      var x := a[0];
      assert Class(less, a, x)[0] == x;
      var j := ClassMember(less, b, x);
      var i := ClassMember(less, a, b[0]);
      assert Equivalent(less, b[0], x);
      assert Class(less, b, x)[0] == b[0];
      forall y ensures Class(less, a[1..], y) == Class(less, b[1..], y) {
        var head := if Equivalent(less, x, y) then [x] else [];
        assert Class(less, a, y) == Class(less, b, y);
        assert Class(less, a[1..], y) == Class(less, a, y)[|head|..];
        assert Class(less, b[1..], y) == Class(less, b, y)[|head|..];
      }
      StableSortIsUnique(less, a[1..], b[1..]);
    }
  }

  /** Adding elements one by one to an empty list sorts them stably, the last one first. */
  lemma AddAllIsTheStableSort<T(!new)>(less: Less<T>, xs: seq<T>, r: seq<T>)
    requires StrictWeakOrder(less)
    ensures IsStableSort(less, r, Reversed(xs)) <==> r == AddAll(less, false, xs)
  {
    AddAllIsStableSort(less, xs);
    if IsStableSort(less, r, Reversed(xs)) {
      assert forall x :: Class(less, r, x) == Class(less, Reversed(xs), x);
      StableSortIsUnique(less, r, AddAll(less, false, xs));
    }
  }

  lemma {:induction false} ClassMember<T>(less: Less<T>, s: seq<T>, x: T) returns (i: nat)
    requires Class(less, s, x) != []
    ensures i < |s| && Equivalent(less, s[i], x)
  {
    if Equivalent(less, s[0], x) {
      i := 0;
    } else {
      i := ClassMember(less, s[1..], x);
      i := i + 1;
    }
  }

  /** In unique mode the list keeps, of every class, the element that came first. */
  lemma {:induction false} AddAllUniqueKeepsFirst<T(!new)>(less: Less<T>, xs: seq<T>, x: T)
    requires StrictWeakOrder(less)
    ensures Sorted(less, AddAll(less, true, xs)) && Unique(less, AddAll(less, true, xs))
    ensures Class(less, AddAll(less, true, xs), x) == First(Class(less, xs, x))
  {
    if xs != [] {
      var front, y := xs[..|xs| - 1], xs[|xs| - 1];
      AddAllUniqueKeepsFirst(less, front, x);
      var s := AddAll(less, true, front);
      AddSorted(less, true, s, y);
      AddUnique(less, s, y);
      assert xs == front + [y];
      ClassConcat(less, front, [y], x);
      FindsFirst(less, s, y);
      if Find(less, s, y) == |s| {
        AddClass(less, s, y, x);
        if Equivalent(less, y, x) {
          ClassEmpty(less, s, x);
        }
      } else if Equivalent(less, y, x) {
        ClassHas(less, s, Find(less, s, y), x);
      }
    }
  }

  function First<T>(s: seq<T>): seq<T> {
    if s == [] then [] else [s[0]]
  }

  lemma {:induction false} ClassHas<T>(less: Less<T>, s: seq<T>, i: nat, x: T)
    requires i < |s| && Equivalent(less, s[i], x)
    ensures Class(less, s, x) != []
  {
    if i > 0 {
      ClassHas(less, s[1..], i - 1, x);
    }
  }

  lemma {:induction false} ClassElements<T>(less: Less<T>, s: seq<T>, x: T)
    ensures forall y <- Class(less, s, x) :: y in s && Equivalent(less, y, x)
  {
    if s != [] {
      ClassElements(less, s[1..], x);
    }
  }

  /** Equivalent elements are equal. */
  ghost predicate NoTwins<T>(less: Less<T>, xs: seq<T>) {
    forall x, y :: x in xs && y in xs && Equivalent(less, x, y) ==> x == y
  }

  /** Unique mode loses no element if and only if no two different ones are equivalent. */
  lemma UniqueKeepsAll<T(!new)>(less: Less<T>, xs: seq<T>)
    requires StrictWeakOrder(less)
    ensures (forall x <- xs :: x in AddAll(less, true, xs)) <==> NoTwins(less, xs)
  {
    var kept := AddAll(less, true, xs);
    if forall x <- xs :: x in kept {
      forall x, y | x in xs && y in xs && Equivalent(less, x, y) ensures x == y {
        AddAllUniqueKeepsFirst(less, xs, x);
        assert x in kept && y in kept;
      }
    }
    if NoTwins(less, xs) {
      forall x <- xs ensures x in kept {
        KeepsOnlyChild(less, xs, x);
      }
    }
  }

  lemma KeepsOnlyChild<T(!new)>(less: Less<T>, xs: seq<T>, x: T)
    requires StrictWeakOrder(less) && NoTwins(less, xs) && x in xs
    ensures x in AddAll(less, true, xs)
  {
    var i :| 0 <= i < |xs| && xs[i] == x;
    ClassHas(less, xs, i, x);
    ClassElements(less, xs, x);
    var first := Class(less, xs, x)[0];
    assert first in Class(less, xs, x) && first == x;
    AddAllUniqueKeepsFirst(less, xs, x);
    ClassElements(less, AddAll(less, true, xs), x);
    assert x in Class(less, AddAll(less, true, xs), x);
  }

  // ---------- Runs of operations ----------

  datatype Operation<T> =
    | AddElement(x: T)
    | RemoveElement(x: T)
    | RemoveIndex(k: nat)
    | Clear
    | SetUnique(unique: bool)

  datatype State<T> = State(data: seq<T>, unique: bool)

  function Apply<T>(less: Less<T>, s: State<T>, op: Operation<T>): State<T> {
    match op
    case AddElement(x) => s.(data := Add(less, s.unique, s.data, x))
    case RemoveElement(x) => s.(data := Remove(less, s.data, x))
    case RemoveIndex(k) => if k < |s.data| then s.(data := RemoveAt(s.data, k)) else s
    case Clear => s.(data := [])
    case SetUnique(unique) => s.(unique := unique)
  }

  function Run<T>(less: Less<T>, s: State<T>, ops: seq<Operation<T>>): State<T> {
    if ops == [] then s else Apply(less, Run(less, s, ops[..|ops| - 1]), ops[|ops| - 1])
  }

  lemma InsertedMultiset<T>(s: seq<T>, k: nat, x: T)
    requires k <= |s|
    ensures multiset(s[..k] + [x] + s[k..]) == multiset(s) + multiset{x}
  {
    assert s == s[..k] + s[k..];
  }

  lemma RemovedAt<T(!new)>(less: Less<T>, s: seq<T>, k: nat)
    requires k < |s|
    ensures multiset(RemoveAt(s, k)) + multiset{s[k]} == multiset(s)
    ensures Sorted(less, s) ==> Sorted(less, RemoveAt(s, k))
    ensures Unique(less, s) ==> Unique(less, RemoveAt(s, k))
  {
    var r := RemoveAt(s, k);
    assert s == s[..k] + [s[k]] + s[k + 1..];
    assert forall i :: 0 <= i < |r| ==> r[i] == s[if i < k then i else i + 1];
  }

  /** The element an operation reports as added or removed, if it changes the list by one. */
  function Added<T>(less: Less<T>, s: State<T>, op: Operation<T>): multiset<T> {
    if op.AddElement? && !(s.unique && Find(less, s.data, op.x) < |s.data|) then multiset{op.x} else multiset{}
  }

  function Removed<T>(less: Less<T>, s: State<T>, op: Operation<T>): multiset<T> {
    match op
    case RemoveElement(x) =>
      var k := Find(less, s.data, x);
      if k < |s.data| then multiset{s.data[k]} else multiset{}
    case RemoveIndex(k) => if k < |s.data| then multiset{s.data[k]} else multiset{}
    case Clear => multiset(s.data)
    case _ => multiset{}
  }

  lemma OperationKeepsSorted<T(!new)>(less: Less<T>, s: State<T>, op: Operation<T>)
    requires StrictWeakOrder(less) && Sorted(less, s.data)
    ensures Sorted(less, Apply(less, s, op).data)
  {
    match op
    case AddElement(x) => AddSorted(less, s.unique, s.data, x);
    case RemoveElement(x) =>
      if Find(less, s.data, x) < |s.data| {
        RemovedAt(less, s.data, Find(less, s.data, x));
      }
    case RemoveIndex(k) =>
      if k < |s.data| {
        RemovedAt(less, s.data, k);
      }
    case _ =>
  }

  /** Each operation changes the multiset of elements by exactly the elements it reports. */
  lemma OperationEffect<T(!new)>(less: Less<T>, s: State<T>, op: Operation<T>)
    ensures multiset(Apply(less, s, op).data) + Removed(less, s, op) == multiset(s.data) + Added(less, s, op)
  {
    match op
    case AddElement(x) => InsertedMultiset(s.data, LowerBound(less, s.data, x), x);
    case RemoveElement(x) =>
      if Find(less, s.data, x) < |s.data| {
        RemovedAt(less, s.data, Find(less, s.data, x));
      }
    case RemoveIndex(k) =>
      if k < |s.data| {
        RemovedAt(less, s.data, k);
      }
    case _ =>
  }

  lemma OperationKeepsUnique<T(!new)>(less: Less<T>, s: State<T>, op: Operation<T>)
    requires StrictWeakOrder(less) && Sorted(less, s.data) && s.unique && Unique(less, s.data)
    requires op != SetUnique(false)
    ensures Apply(less, s, op).unique && Unique(less, Apply(less, s, op).data)
  {
    match op
    case AddElement(x) => AddUnique(less, s.data, x);
    case RemoveElement(x) =>
      if Find(less, s.data, x) < |s.data| {
        RemovedAt(less, s.data, Find(less, s.data, x));
      }
    case RemoveIndex(k) =>
      if k < |s.data| {
        RemovedAt(less, s.data, k);
      }
    case _ =>
  }

  /** Any run keeps the list sorted, and a list unique throughout holds no two equivalents. */
  lemma {:induction false} RunKeeps<T(!new)>(less: Less<T>, s: State<T>, ops: seq<Operation<T>>)
    requires StrictWeakOrder(less) && Sorted(less, s.data)
    ensures Sorted(less, Run(less, s, ops).data)
    ensures s.unique && Unique(less, s.data) && SetUnique(false) !in ops ==>
      Run(less, s, ops).unique && Unique(less, Run(less, s, ops).data)
  {
    if ops != [] {
      var front, op := ops[..|ops| - 1], ops[|ops| - 1];
      RunKeeps(less, s, front);
      var before := Run(less, s, front);
      OperationKeepsSorted(less, before, op);
      if s.unique && Unique(less, s.data) && SetUnique(false) !in ops {
        assert ops == front + [op];
        OperationKeepsUnique(less, before, op);
      }
    }
  }
}
