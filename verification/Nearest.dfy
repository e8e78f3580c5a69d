/** Ordering texts by their distance from a reference, `LessDistance` and `min_distance` of
    `cpp/src/distance.hpp`. */
module Nearest {
  import opened Wrappers
  import opened EditDistance
  import opened SortedSequences

  function LessDistance<T(==)>(reference: seq<T>): Less<seq<T>> {
    (left: seq<T>, right: seq<T>) => Distance(left, reference) < Distance(right, reference)
  }

  /** The comparator orders texts, so it can order a sorted list. */
  lemma LessDistanceOrders<T(!new)>(reference: seq<T>)
    ensures StrictWeakOrder(LessDistance(reference))
  {
  }

  /** Sorted by distance means that no text is farther from the reference than a later one. */
  lemma SortedByDistance<T(!new)>(reference: seq<T>, s: seq<seq<T>>)
    ensures Sorted(LessDistance(reference), s) <==>
      forall i, j :: 0 <= i < j < |s| ==> Distance(s[i], reference) <= Distance(s[j], reference)
  {
    var less := LessDistance(reference);
    assert forall i, j :: 0 <= i < j < |s| ==>
      (less(s[j], s[i]) <==> Distance(s[j], reference) < Distance(s[i], reference));
  }

  /** A list sorted by distance begins with the reference if it holds it at all. */
  lemma ReferenceComesFirst<T(!new)>(reference: seq<T>, s: seq<seq<T>>)
    requires s != [] && Sorted(LessDistance(reference), s)
    ensures reference in s <==> s[0] == reference
  {
    if reference in s {
      var k :| 0 <= k < |s| && s[k] == reference;
      assert k > 0 ==> !LessDistance(reference)(s[k], s[0]);
      DistanceZero(reference, reference);
      DistanceZero(s[0], reference);
    }
  }

  /** No two different texts are equally far from the reference. */
  ghost predicate NoTies<T>(reference: seq<T>, xs: seq<seq<T>>) {
    forall x, y :: x in xs && y in xs && Distance(x, reference) == Distance(y, reference) ==> x == y
  }

  lemma TiesAreTwins<T(!new)>(reference: seq<T>, x: seq<T>, y: seq<T>)
    ensures Equivalent(LessDistance(reference), x, y) <==> Distance(x, reference) == Distance(y, reference)
  {
  }

  /** A list unique by distance holds every text it was given if and only if there are no ties. */
  lemma UniqueKeepsAllTexts<T(!new)>(reference: seq<T>, xs: seq<seq<T>>)
    ensures (forall x <- xs :: x in AddAll(LessDistance(reference), true, xs)) <==> NoTies(reference, xs)
  {
    LessDistanceOrders(reference);
    UniqueKeepsAll(LessDistance(reference), xs);
    NoTwinsIsNoTies(reference, xs);
  }

  lemma NoTwinsIsNoTies<T(!new)>(reference: seq<T>, xs: seq<seq<T>>)
    ensures NoTwins(LessDistance(reference), xs) <==> NoTies(reference, xs)
  {
    forall x, y
      ensures Equivalent(LessDistance(reference), x, y) <==> Distance(x, reference) == Distance(y, reference)
    {
      TiesAreTwins(reference, x, y);
    }
  }

  /** Two texts at distance one from the same reference, of which the list keeps the first. */
  lemma UniqueDropsOtherTexts()
    ensures AddAll(LessDistance("ab"), true, ["ax", "bb"]) == ["ax"]
  {
    DistanceFromAb();
    var less := LessDistance("ab");
    assert AddAll(less, true, []) == [];
    assert ["ax", "bb"][..1] == ["ax"] && ["ax"][..0] == [];
    assert AddAll(less, true, ["ax"]) == Add(less, true, [], "ax") == ["ax"];
    assert Find(less, ["ax"], "bb") == 0;
  }

  lemma DistanceFromAb()
    ensures Distance("ax", "ab") == 1 && Distance("bb", "ab") == 1
  {
    DistanceCommonPrefix("a", "x", "b");
    assert "a" + "x" == "ax" && "a" + "b" == "ab";
    DistanceCommonSuffix("b", "a", "b");
    assert "b" + "b" == "bb";
    OneForOne('x', 'b');
    OneForOne('b', 'a');
  }

  lemma OneForOne(a: char, b: char)
    requires a != b
    ensures Distance([a], [b]) == 1
  {
    DistanceZero([a], [b]);
    DistanceBetweenLengths([a], [b]);
  }

  /** The distance as an `int` of 32 bits, to which the source converts it. */
  function Narrowed(d: nat): int {
    var low := d % 0x1_0000_0000;
    if low < 0x8000_0000 then low else low - 0x1_0000_0000
  }

  /** The narrowed distance is the one 32-bit number that differs from it by a multiple of 2 to the 32. */
  lemma NarrowedWraps(d: nat, n: int)
    ensures n == Narrowed(d) <==> -0x8000_0000 <= n < 0x8000_0000 && (d - n) % 0x1_0000_0000 == 0
  {
  }

  /** `min_distance` with a single result: the first text of the smallest narrowed distance, or
      none, an exception, for an empty container. */
  method MinDistance<T(==, !new)>(s: seq<T>, c: seq<seq<T>>) returns (min: Option<seq<T>>)
    ensures min.None? <==> c == []
    ensures min.Some? ==> exists k :: FirstSmallest(s, c, k) && min.value == c[k]
  {
    if c == [] {
      return None;
    }
    var best := c[0];
    ghost var k := 0;
    var distance := ComputeDistance(best, s);
    var minDist := Narrowed(distance);
    for n := 0 to |c|
      invariant k < |c| && best == c[k] && minDist == Narrowed(Distance(best, s)) && k <= n
      invariant forall i :: 0 <= i < n ==> minDist <= NarrowedDistances(s, c)[i]
      invariant forall i :: 0 <= i < k ==> minDist < NarrowedDistances(s, c)[i]
    {
      distance := ComputeDistance(c[n], s);
      var dist := Narrowed(distance);
      if dist < minDist {
        best, minDist, k := c[n], dist, n;
      }
    }
    assert FirstSmallest(s, c, k);
    return Some(best);
  }

  function NarrowedDistances<T(==)>(s: seq<T>, c: seq<seq<T>>): (d: seq<int>)
    ensures |d| == |c| && forall i :: 0 <= i < |c| ==> d[i] == Narrowed(Distance(c[i], s))
  {
    seq(|c|, i requires 0 <= i < |c| => Narrowed(Distance(c[i], s)))
  }

  ghost predicate FirstSmallest<T>(s: seq<T>, c: seq<seq<T>>, k: int) {
    && 0 <= k < |c|
    && (forall i :: 0 <= i < |c| ==> Narrowed(Distance(c[k], s)) <= Narrowed(Distance(c[i], s)))
    && (forall i :: 0 <= i < k ==> Narrowed(Distance(c[k], s)) < Narrowed(Distance(c[i], s)))
  }

  /** No text is nearer than number k, and none before it is as near. */
  ghost predicate FirstNearest<T>(s: seq<T>, c: seq<seq<T>>, k: int) {
    && 0 <= k < |c|
    && (forall i :: 0 <= i < |c| ==> Distance(c[k], s) <= Distance(c[i], s))
    && (forall i :: 0 <= i < k ==> Distance(c[k], s) < Distance(c[i], s))
  }

  /** With texts below 2 to the 31 characters the result is the first of the nearest texts, and the
      text itself when it is there. */
  lemma SmallestIsNearest<T(!new)>(s: seq<T>, c: seq<seq<T>>, k: int)
    requires |s| < 0x8000_0000 && forall i :: 0 <= i < |c| ==> |c[i]| < 0x8000_0000
    ensures FirstSmallest(s, c, k) <==> FirstNearest(s, c, k)
    ensures FirstNearest(s, c, k) && s in c ==> c[k] == s
  {
    forall i | 0 <= i < |c| ensures Narrowed(Distance(c[i], s)) == Distance(c[i], s) {
      DistanceBetweenLengths(c[i], s);
    }
    if FirstNearest(s, c, k) && s in c {
      DistanceZero(s, s);
      DistanceZero(c[k], s);
    }
  }
}
