/** `PoolFactory` of `cpp/src/factory.hpp`: a pool of reference-counted objects that refills itself. */
module PoolFactories {
  import opened Arithmetic

  /** One pointer of the pool. Besides the pool itself, an object is counted by the clients that hold
      it and by the heap copies that `get` makes and never deletes. */
  datatype Entry = Entry(made: nat, clients: nat, copies: nat)
  {
    function UseCount(): nat {
      1 + clients + copies
    }

    predicate Free() {
      UseCount() < 2
    }
  }

  /** The pool, its two counters, the next object to be made, and the objects handed out so far. */
  datatype Pool = Pool(entries: seq<Entry>, available: nat, refill: nat, next: nat, handed: seq<nat>)

  datatype Operation =
    | Get
    | Share(made: nat)
    | Release(made: nat)
    | SetRefill(size: nat)
    | Reset(initial: nat, refill: nat)

  // ---------- The operations on values ----------

  function FreeCount(entries: seq<Entry>): nat {
    if entries == [] then 0
    else FreeCount(entries[..|entries| - 1]) + if entries[|entries| - 1].Free() then 1 else 0
  }

  /** The first available entry, or the number of entries. */
  function FirstFree(entries: seq<Entry>): (k: nat)
    ensures k <= |entries|
    ensures k < |entries| ==> entries[k].Free()
    ensures forall i :: 0 <= i < k ==> !entries[i].Free()
  {
    if entries == [] || entries[0].Free() then 0 else FirstFree(entries[1..]) + 1
  }

  function Fresh(first: nat, count: nat): (entries: seq<Entry>)
    ensures |entries| == count
  {
    seq(count, i requires 0 <= i < count => Entry(first + i, 0, 0))
  }

  function Filled(initial: nat, refill: nat, next: nat, handed: seq<nat>): Pool {
    Pool(Fresh(next, initial), initial, refill, next + initial, handed)
  }

  function Refilled(p: Pool): Pool {
    p.(entries := p.entries + Fresh(p.next, p.refill), available := p.available + p.refill, next := p.next + p.refill)
  }

  /** `get` returns only if an entry is available or a refill brings some. */
  predicate CanGet(p: Pool) {
    FirstFree(p.entries) < |p.entries| || p.refill > 0
  }

  /** The entry handed out: once to the client and once into the copy that is never deleted. */
  function Take(p: Pool, k: nat): Pool
    requires k < |p.entries| && p.available > 0
  {
    var e := p.entries[k];
    p.(entries := p.entries[k := e.(clients := e.clients + 1, copies := e.copies + 1)],
       available := p.available - 1,
       handed := p.handed + [e.made])
  }

  /** A client copies or drops a pointer it holds; pointers to other objects do not concern the pool. */
  function WithClients(entries: seq<Entry>, made: nat, more: bool): seq<Entry> {
    seq(|entries|, i requires 0 <= i < |entries| =>
      var e := entries[i];
      if e.made != made || e.clients == 0 then e
      else e.(clients := if more then e.clients + 1 else e.clients - 1))
  }

  ghost predicate Invariant(p: Pool) {
    && p.available == FreeCount(p.entries)
    && (forall i :: 0 <= i < |p.entries| ==> p.entries[i].made < p.next)
    && (forall i, j :: 0 <= i < j < |p.entries| ==> p.entries[i].made != p.entries[j].made)
    && (forall i :: 0 <= i < |p.entries| ==> (p.entries[i].copies == 0 <==> p.entries[i].made !in p.handed))
    && (forall i :: 0 <= i < |p.entries| && p.entries[i].copies == 0 ==> p.entries[i].clients == 0)
    && (forall i :: 0 <= i < |p.handed| ==> p.handed[i] < p.next)
    && (forall i, j :: 0 <= i < j < |p.handed| ==> p.handed[i] != p.handed[j])
  }

  function GetFrom(p: Pool): Pool
    requires Invariant(p) && CanGet(p)
  {
    FreeCountPositive(p.entries);
    if FirstFree(p.entries) < |p.entries| then Take(p, FirstFree(p.entries))
    else
      var p' := Refilled(p);
      RefilledFree(p);
      FreeCountPositive(p'.entries);
      Take(p', FirstFree(p'.entries))
  }

  predicate Enabled(p: Pool, op: Operation) {
    op.Get? ==> CanGet(p)
  }

  function Apply(p: Pool, op: Operation): Pool
    requires Invariant(p) && Enabled(p, op)
  {
    match op
    case Get => GetFrom(p)
    case Share(o) => p.(entries := WithClients(p.entries, o, true))
    case Release(o) => p.(entries := WithClients(p.entries, o, false))
    case SetRefill(size) => p.(refill := size)
    case Reset(initial, refill) => Filled(initial, refill, p.next, p.handed)
  }

  // ---------- Counting ----------

  lemma {:induction false} FreeCountPositive(entries: seq<Entry>)
    ensures FreeCount(entries) > 0 <==> FirstFree(entries) < |entries|
  {
    if entries != [] {
      var front, last := entries[..|entries| - 1], entries[|entries| - 1];
      FreeCountPositive(front);
      var k := FirstFree(entries);
      assert forall i :: 0 <= i < |front| ==> front[i] == entries[i];
    }
  }

  lemma {:induction false} FreeCountConcat(a: seq<Entry>, b: seq<Entry>)
    ensures FreeCount(a + b) == FreeCount(a) + FreeCount(b)
  {
    if b == [] {
      assert a + b == a;
    } else {
      assert (a + b)[..|a + b| - 1] == a + b[..|b| - 1];
      FreeCountConcat(a, b[..|b| - 1]);
    }
  }

  lemma {:induction false} FreshAreFree(first: nat, count: nat)
    ensures FreeCount(Fresh(first, count)) == count
  {
    if count > 0 {
      assert Fresh(first, count)[..count - 1] == Fresh(first, count - 1);
      FreshAreFree(first, count - 1);
    }
  }

  lemma RefilledFree(p: Pool)
    ensures FreeCount(Refilled(p).entries) == FreeCount(p.entries) + p.refill
  {
    FreeCountConcat(p.entries, Fresh(p.next, p.refill));
    FreshAreFree(p.next, p.refill);
  }

  lemma FreeCountUpdate(entries: seq<Entry>, k: nat, e: Entry)
    requires k < |entries|
    ensures FreeCount(entries[k := e]) + (if entries[k].Free() then 1 else 0)
      == FreeCount(entries) + if e.Free() then 1 else 0
  {
    var a, b := entries[..k], entries[k + 1..];
    assert entries == a + [entries[k]] + b && entries[k := e] == a + [e] + b;
    FreeCountConcat(a + [entries[k]], b);
    FreeCountConcat(a + [e], b);
    FreeCountConcat(a, [entries[k]]);
    FreeCountConcat(a, [e]);
    assert [e][..0] == [] && [entries[k]][..0] == [];
  }

  lemma {:induction false} FreeCountSame(a: seq<Entry>, b: seq<Entry>)
    requires |a| == |b| && forall i :: 0 <= i < |a| ==> (a[i].Free() <==> b[i].Free())
    ensures FreeCount(a) == FreeCount(b)
  {
    if a != [] {
      FreeCountSame(a[..|a| - 1], b[..|b| - 1]);
    }
  }

  // ---------- What every interleaving keeps ----------

  lemma TakeKeeps(p: Pool, k: nat)
    requires Invariant(p) && k < |p.entries| && p.entries[k].Free() && p.available > 0
    ensures Invariant(Take(p, k))
  {
    var e := p.entries[k];
    FreeCountUpdate(p.entries, k, e.(clients := e.clients + 1, copies := e.copies + 1));
  }

  lemma RefillKeeps(p: Pool)
    requires Invariant(p)
    ensures Invariant(Refilled(p))
  {
    RefilledFree(p);
  }

  lemma GetKeeps(p: Pool)
    requires Invariant(p) && CanGet(p)
    ensures Invariant(GetFrom(p))
  {
    FreeCountPositive(p.entries);
    if FirstFree(p.entries) < |p.entries| {
      TakeKeeps(p, FirstFree(p.entries));
    } else {
      RefillKeeps(p);
      RefilledFree(p);
      FreeCountPositive(Refilled(p).entries);
      TakeKeeps(Refilled(p), FirstFree(Refilled(p).entries));
    }
  }

  lemma GetAfterRefill(p: Pool)
    requires Invariant(p) && CanGet(p) && FirstFree(p.entries) == |p.entries|
    ensures var p' := Refilled(p);
      Invariant(p') && FirstFree(p'.entries) < |p'.entries| && GetFrom(p') == GetFrom(p)
  {
    RefillKeeps(p);
    RefilledFree(p);
    FreeCountPositive(Refilled(p).entries);
  }

  /** Where `get` is not enabled its recursion comes back to the very same state. */
  lemma GetNeverReturns(p: Pool)
    requires !CanGet(p)
    ensures Refilled(p) == p
  {
    assert p.entries + [] == p.entries;
  }

  lemma ClientsKeep(p: Pool, o: nat, more: bool)
    requires Invariant(p)
    ensures Invariant(p.(entries := WithClients(p.entries, o, more)))
  {
    FreeCountSame(p.entries, WithClients(p.entries, o, more));
  }

  lemma FilledInvariant(initial: nat, refill: nat, p: Pool)
    requires Invariant(p)
    ensures Invariant(Filled(initial, refill, p.next, p.handed))
  {
    FreshAreFree(p.next, initial);
  }

  lemma OperationKeepsInvariant(p: Pool, op: Operation)
    requires Invariant(p) && Enabled(p, op)
    ensures Invariant(Apply(p, op))
  {
    match op
    case Get => GetKeeps(p);
    case Share(o) => ClientsKeep(p, o, true);
    case Release(o) => ClientsKeep(p, o, false);
    case SetRefill(_) =>
    case Reset(initial, refill) => FilledInvariant(initial, refill, p);
  }

  /** `p'` is reached from `p` by the operations, in whatever order the clients interleave them. The
      invariant is there because Apply asks for it; OperationKeepsInvariant shows that it is implied
      from the first state on. */
  ghost predicate Reaches(p: Pool, ops: seq<Operation>, p': Pool)
    decreases ops
  {
    if ops == [] then p' == p
    else Invariant(p) && Enabled(p, ops[0]) && Reaches(Apply(p, ops[0]), ops[1..], p')
  }

  const EMPTY := Pool([], 0, 0, 0, [])

  /** In every interleaving from a new pool the counter agrees with the reference counts, nothing
      is handed out twice, and `get` returns whenever the refill size is positive. */
  lemma {:induction false} RunsKeepInvariant(p: Pool, ops: seq<Operation>, p': Pool)
    requires Invariant(p) && Reaches(p, ops, p')
    ensures Invariant(p')
    decreases ops
  {
    if ops != [] {
      OperationKeepsInvariant(p, ops[0]);
      RunsKeepInvariant(Apply(p, ops[0]), ops[1..], p');
    }
  }

  // ---------- The size after k gets ----------

  /** The number of refills k gets need: the gets beyond the initial objects, in units of r,
      rounded up. */
  function Refills(initial: nat, r: nat, k: nat): nat
    requires r > 0
  {
    if k <= initial then 0 else (k - initial + r - 1) / r
  }

  /** With no reset and no change of the refill size, the pool after k gets: its size, and that
      exactly the k objects handed out are unavailable, whatever the clients did meanwhile. */
  ghost predicate Sized(p: Pool, initial: nat, k: nat)
    requires p.refill > 0
  {
    && |p.entries| == initial + p.refill * Refills(initial, p.refill, k)
    && |p.entries| == k + p.available
  }

  predicate KeepsSettings(op: Operation) {
    !op.SetRefill? && !op.Reset?
  }

  function Gets(ops: seq<Operation>): nat {
    if ops == [] then 0 else (if ops[0].Get? then 1 else 0) + Gets(ops[1..])
  }

  lemma RefillsStep(initial: nat, r: nat, k: nat)
    requires r > 0 && k <= initial + r * Refills(initial, r, k)
    ensures Refills(initial, r, k + 1)
      == Refills(initial, r, k) + if k == initial + r * Refills(initial, r, k) then 1 else 0
  {
    var q := Refills(initial, r, k);
    if k >= initial {
      var n := k - initial;
      assert q == (n + r - 1) / r by {
        if n == 0 {
          assert (r - 1) / r == 0;
        }
      }
      assert Refills(initial, r, k + 1) == (n + r) / r;
      CeilingStep(n, r, q);
    }
  }

  lemma CeilingStep(n: nat, r: nat, q: nat)
    requires r > 0 && q == (n + r - 1) / r && n <= r * q
    ensures (n + r) / r == q + if n == r * q then 1 else 0
  {
    var m := n + r - 1;
    assert m == r * q + m % r;
    if n == r * q {
      assert n + r == (q + 1) * r;
      DivUnique(n + r, r, q + 1, 0);
    } else {
      assert r * q <= n + r < r * q + r && r * q == q * r;
      DivUnique(n + r, r, q, n + r - q * r);
    }
  }

  lemma GetKeepsSized(p: Pool, initial: nat, k: nat)
    requires Invariant(p) && p.refill > 0 && Sized(p, initial, k)
    ensures Sized(GetFrom(p), initial, k + 1)
  {
    RefillsSize(initial, p.refill, k);
    GetSizes(p);
  }

  lemma RefillsSize(initial: nat, r: nat, k: nat)
    requires r > 0 && k <= initial + r * Refills(initial, r, k)
    ensures var size := initial + r * Refills(initial, r, k);
      initial + r * Refills(initial, r, k + 1) == if k == size then size + r else size
  {
    var q := Refills(initial, r, k);
    RefillsStep(initial, r, k);
    assert r * (q + 1) == r * q + r;
  }

  lemma GetSizes(p: Pool)
    requires Invariant(p) && CanGet(p)
    ensures GetFrom(p).refill == p.refill
    ensures |GetFrom(p).entries| == |p.entries| + if p.available == 0 then p.refill else 0
    ensures GetFrom(p).available + 1 == p.available + if p.available == 0 then p.refill else 0
  {
    FreeCountPositive(p.entries);
    RefilledFree(p);
    FreeCountPositive(Refilled(p).entries);
  }

  lemma StepKeepsSized(p: Pool, initial: nat, k: nat, op: Operation)
    requires Invariant(p) && p.refill > 0 && Sized(p, initial, k) && Enabled(p, op) && KeepsSettings(op)
    ensures Apply(p, op).refill == p.refill && Sized(Apply(p, op), initial, k + if op.Get? then 1 else 0)
  {
    if op.Get? {
      GetKeepsSized(p, initial, k);
      GetSizes(p);
    }
  }

  lemma {:induction false} SizeAfterGets(p: Pool, initial: nat, k: nat, ops: seq<Operation>, p': Pool)
    requires Invariant(p) && p.refill > 0 && Sized(p, initial, k) && Reaches(p, ops, p')
    requires forall i :: 0 <= i < |ops| ==> KeepsSettings(ops[i])
    ensures p'.refill == p.refill && Sized(p', initial, k + Gets(ops))
    decreases ops
  {
    if ops != [] {
      assert KeepsSettings(ops[0]);
      OperationKeepsInvariant(p, ops[0]);
      StepKeepsSized(p, initial, k, ops[0]);
      SizeAfterGets(Apply(p, ops[0]), initial, k + if ops[0].Get? then 1 else 0, ops[1..], p');
    }
  }

  /** From a pool made with `initial` objects and refill size r, the size after k gets. */
  lemma PoolSize(initial: nat, r: nat, ops: seq<Operation>, p: Pool)
    requires r > 0 && Reaches(Filled(initial, r, 0, []), ops, p)
    requires forall i :: 0 <= i < |ops| ==> KeepsSettings(ops[i])
    ensures |p.entries| == initial + r * Refills(initial, r, Gets(ops))
    ensures p.available == |p.entries| - Gets(ops)
  {
    FilledIsSized(initial, r, EMPTY);
    SizeAfterGets(Filled(initial, r, 0, []), initial, 0, ops, p);
  }

  lemma FilledIsSized(initial: nat, r: nat, before: Pool)
    requires r > 0 && Invariant(before)
    ensures var p := Filled(initial, r, before.next, before.handed);
      Invariant(p) && p.refill == r && Sized(p, initial, 0)
  {
    FilledInvariant(initial, r, before);
    assert r * 0 == 0;
  }

  /** The same from a reset, at any time and after whatever came before. */
  lemma PoolSizeAfterReset(before: Pool, initial: nat, r: nat, ops: seq<Operation>, p: Pool)
    requires r > 0 && Invariant(before) && Reaches(Apply(before, Reset(initial, r)), ops, p)
    requires forall i :: 0 <= i < |ops| ==> KeepsSettings(ops[i])
    ensures |p.entries| == initial + r * Refills(initial, r, Gets(ops))
    ensures p.available == |p.entries| - Gets(ops)
  {
    FilledIsSized(initial, r, before);
    SizeAfterGets(Apply(before, Reset(initial, r)), initial, 0, ops, p);
  }

  // ---------- Single operations, entry by entry ----------

  /** Objects that nobody but the pool refers to, none of them made before `first`, no two the same. */
  ghost predicate AllNew(entries: seq<Entry>, first: nat) {
    && (forall i :: 0 <= i < |entries| ==>
         entries[i].clients == 0 && entries[i].copies == 0 && entries[i].UseCount() == 1 && entries[i].made >= first)
    && forall i, j :: 0 <= i < j < |entries| ==> entries[i].made != entries[j].made
  }

  /** The object at k is handed out: one reference of the client, one of the copy that stays. */
  ghost predicate HandsOut(entries: seq<Entry>, p: Pool, p': Pool, k: nat) {
    && k < |entries| == |p'.entries| && entries[k].UseCount() == 1
    && p'.entries[k].made == entries[k].made && p'.entries[k].UseCount() == 3
    && (forall i :: 0 <= i < |entries| && i != k ==> p'.entries[i] == entries[i])
    && (forall i :: 0 <= i < k ==> entries[i].UseCount() >= 2)
    && p'.handed == p.handed + [entries[k].made] && p'.refill == p.refill
  }

  lemma FirstFreeHandsOut(p: Pool)
    requires p.available > 0 && FirstFree(p.entries) < |p.entries|
    ensures HandsOut(p.entries, p, Take(p, FirstFree(p.entries)), FirstFree(p.entries))
  {
  }

  lemma FirstOfRefill(p: Pool)
    requires FirstFree(p.entries) == |p.entries| && p.refill > 0
    ensures var entries := p.entries + Fresh(p.next, p.refill);
      FirstFree(entries) == |p.entries| && entries[..|p.entries|] == p.entries && AllNew(entries[|p.entries|..], p.next)
  {
    var more := Fresh(p.next, p.refill);
    SplitEntries(p.entries, more);
    FirstFreeIs(p.entries + more, |p.entries|);
  }

  lemma SplitEntries(a: seq<Entry>, b: seq<Entry>)
    ensures (a + b)[..|a|] == a && (a + b)[|a|..] == b
  {
  }

  /** `get` takes the first object with a single reference. */
  lemma GetHandsOutFirst(p: Pool) returns (k: nat)
    requires Invariant(p) && p.available > 0
    ensures CanGet(p) && HandsOut(p.entries, p, GetFrom(p), k) && GetFrom(p).available == p.available - 1
  {
    FreeCountPositive(p.entries);
    k := FirstFree(p.entries);
    FirstFreeHandsOut(p);
  }

  /** When there is none, new objects come behind the old ones, as many as the refill size, and the
      first of them is taken. */
  lemma GetHandsOutNew(p: Pool) returns (entries: seq<Entry>)
    requires Invariant(p) && p.available == 0 && p.refill > 0
    ensures |entries| == |p.entries| + p.refill && entries[..|p.entries|] == p.entries
    ensures AllNew(entries[|p.entries|..], p.next)
    ensures CanGet(p) && HandsOut(entries, p, GetFrom(p), |p.entries|) && GetFrom(p).available == p.refill - 1
  {
    FreeCountPositive(p.entries);
    FirstOfRefill(p);
    entries := Refilled(p).entries;
    FirstFreeHandsOut(Refilled(p));
  }

  /** A client that holds the object changes its count by exactly one and no other; dropping a copied
      pointer takes the copy back. */
  lemma ShareAndRelease(p: Pool, o: nat)
    requires Invariant(p)
    ensures forall i :: 0 <= i < |p.entries| ==>
      var e := p.entries[i]; var shared := Apply(p, Share(o)).entries; var released := Apply(p, Release(o)).entries;
      if e.made == o && e.clients > 0
      then shared[i] == Entry(o, e.clients + 1, e.copies) && released[i] == Entry(o, e.clients - 1, e.copies)
      else shared[i] == released[i] == e
    ensures Invariant(Apply(p, Share(o))) && Apply(Apply(p, Share(o)), Release(o)) == p
  {
    OperationKeepsInvariant(p, Share(o));
    assert Apply(Apply(p, Share(o)), Release(o)).entries == p.entries;
  }

  /** An object once handed out never becomes available again, whatever its clients do: the copy
      made by `get` stays. */
  lemma {:induction false} HandedStaysTaken(p: Pool, ops: seq<Operation>, p': Pool)
    requires Invariant(p) && Reaches(p, ops, p')
    ensures p.handed <= p'.handed
    ensures forall i :: 0 <= i < |p'.entries| && p'.entries[i].made in p.handed ==> !p'.entries[i].Free()
    decreases ops
  {
    if ops != [] {
      OperationKeepsInvariant(p, ops[0]);
      HandedStaysTaken(Apply(p, ops[0]), ops[1..], p');
    }
  }

  // ---------- The factory object ----------

  class PoolFactory {
    var pool: seq<Entry>
    var availableCount: nat
    var refillSize: nat
    ghost var handed: seq<nat>
    var nextObject: nat

    ghost function State(): Pool
      reads this
    {
      Pool(pool, availableCount, refillSize, nextObject, handed)
    }

    ghost predicate Valid()
      reads this
    {
      Invariant(State())
    }

    constructor (initialPoolSize: nat, refillSize: nat)
      ensures Valid() && State() == Filled(initialPoolSize, refillSize, 0, [])
      ensures |pool| == availableCount == initialPoolSize && this.refillSize == refillSize && AllNew(pool, 0)
    {
      this.refillSize := refillSize;
      pool, availableCount, nextObject, handed := [], 0, 0, [];
      new;
      FillPool(initialPoolSize);
      FilledInvariant(initialPoolSize, refillSize, EMPTY);
    }

    method FillPool(poolSize: nat)
      requires pool == []
      modifies this`pool, this`availableCount, this`nextObject
      ensures pool == Fresh(old(nextObject), poolSize) && AllNew(pool, old(nextObject))
      ensures |pool| == poolSize && availableCount == poolSize && nextObject == old(nextObject) + poolSize
    {
      for i := 0 to poolSize
        invariant pool == Fresh(old(nextObject), i) && nextObject == old(nextObject) + i
      {
        pool := pool + [Entry(nextObject, 0, 0)];
        nextObject := nextObject + 1;
      }
      availableCount := poolSize;
    }

    method Add(count: nat)
      modifies this`pool, this`availableCount, this`nextObject
      ensures pool == old(pool) + Fresh(old(nextObject), count)
      ensures availableCount == old(availableCount) + count && nextObject == old(nextObject) + count
    {
      for i := 0 to count
        invariant pool == old(pool) + Fresh(old(nextObject), i) && nextObject == old(nextObject) + i
        invariant availableCount == old(availableCount)
      {
        pool := pool + [Entry(nextObject, 0, 0)];
        nextObject := nextObject + 1;
      }
      availableCount := availableCount + count;
    }

    /** Looks through the pool for an object that only the pool refers to. */
    method Scan() returns (k: nat)
      ensures k == FirstFree(pool)
    {
      k := 0;
      while k < |pool| && !pool[k].Free()
        invariant k <= |pool| && forall j :: 0 <= j < k ==> !pool[j].Free()
      {
        k := k + 1;
      }
      FirstFreeIs(pool, k);
    }

    method HandOut(k: nat) returns (made: nat)
      requires Valid() && k < |pool| && pool[k].Free() && availableCount > 0
      modifies this`pool, this`availableCount, this`handed
      ensures State() == Take(old(State()), k)
      ensures made == old(pool[k].made) && made !in old(handed)
    {
      var e := pool[k];
      availableCount := availableCount - 1;
      pool := pool[k := e.(clients := e.clients + 1, copies := e.copies + 1)];
      made := e.made;
      handed := handed + [made];
    }

    /** Hands out the first available object, refilling and trying again when there is none. The
        recursion ends exactly because the refill brings something. */
    method Get() returns (made: nat)
      requires Valid() && CanGet(State())
      modifies this
      ensures Valid() && State() == GetFrom(old(State()))
      ensures made !in old(handed) && handed == old(handed) + [made]
      decreases |pool| - FirstFree(pool) == 0
    {
      FreeCountPositive(pool);
      ghost var before := State();
      ghost var after := GetFrom(before);
      GetKeeps(before);
      var k := Scan();
      if k < |pool| {
        made := HandOut(k);
        return;
      }
      assert availableCount == 0;
      GetAfterRefill(before);
      Add(refillSize);
      assert State() == Refilled(before);
      made := Get();
      assert State() == after;
    }

    method Reset(initialPoolSize: nat, refillSize: nat)
      requires Valid()
      modifies this
      ensures Valid() && State() == Apply(old(State()), Operation.Reset(initialPoolSize, refillSize))
      ensures |pool| == availableCount == initialPoolSize && this.refillSize == refillSize
      ensures AllNew(pool, old(nextObject)) && handed == old(handed)
    {
      FilledInvariant(initialPoolSize, refillSize, State());
      pool := [];
      FillPool(initialPoolSize);
      availableCount := initialPoolSize;
      this.refillSize := refillSize;
    }

    method SetRefillSize(value: nat)
      requires Valid()
      modifies this`refillSize
      ensures Valid() && State() == Apply(old(State()), SetRefill(value))
      ensures refillSize == value && pool == old(pool) && availableCount == old(availableCount)
    {
      refillSize := value;
    }
  }

  lemma {:induction false} FirstFreeIs(entries: seq<Entry>, k: nat)
    requires k <= |entries|
    requires forall i :: 0 <= i < k ==> !entries[i].Free()
    requires k < |entries| ==> entries[k].Free()
    ensures FirstFree(entries) == k
  {
  }
}
