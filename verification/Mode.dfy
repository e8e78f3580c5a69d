/** The statistical mode at the end of `cpu_threads` in `cpp/src/sysinfo.hpp`. */
module Modes {
  import opened Sequences
  import opened SortedSequences

  function IntLess(): Less<int> {
    (x: int, y: int) => x < y
  }

  ghost predicate Ascending(s: seq<int>) {
    forall i, j :: 0 <= i < j < |s| ==> s[i] <= s[j]
  }

  /** `m` occurs most often in `s`, and no smaller value occurs as often. */
  ghost predicate IsMode(s: multiset<int>, m: int) {
    m in s && forall x :: s[x] <= s[m] && (x < m && x in s ==> s[x] < s[m])
  }

  lemma IsModeUnique(s: multiset<int>, m: int, m': int)
    requires IsMode(s, m) && IsMode(s, m')
    ensures m == m'
  {
    assert s[m] <= s[m'] && s[m'] <= s[m];
  }

  /** std::sort; any two ascending arrangements of the samples are the same. */
  method Sort(samples: seq<int>) returns (r: seq<int>)
    ensures Ascending(r) && multiset(r) == multiset(samples) && |r| == |samples|
  {
    SortedSamples(samples);
    r := AddAll(IntLess(), false, samples);
  }

  /** Sorts the samples and scans the runs of equal values. */
  method Mode(samples: seq<int>) returns (mode: int)
    requires samples != []
    ensures IsMode(multiset(samples), mode)
  {
    var results := Sort(samples);
    var n := |results|;
    mode := results[0];
    var count, maxCount := 1, 1;
    for i := 1 to n
      invariant Counters(mode, count, maxCount) == Scan(results[..i])
    {
      assert results[..i + 1][..i] == results[..i];
      if results[i] == results[i - 1] {
        count := count + 1;
      } else {
        if count > maxCount {
          maxCount := count;
          mode := results[i - 1];
        }
        count := 1;
      }
    }
    assert results[..n] == results;
    ScanIsBest(results);
    BestIsMode(multiset(results), results[n - 1], mode, maxCount);
    if count > maxCount {
      mode := results[n - 1];
    }
  }

  datatype Counters = Counters(mode: int, count: nat, maxCount: nat)

  /** The three variables after the scan of `s`. */
  function Scan(s: seq<int>): Counters
    requires s != []
  {
    if |s| == 1 then Counters(s[0], 1, 1)
    else
      var c, last, x := Scan(s[..|s| - 1]), s[|s| - 2], s[|s| - 1];
      if x == last then c.(count := c.count + 1)
      else if c.count > c.maxCount then Counters(last, 1, c.count)
      else c.(count := 1)
  }

  lemma {:induction false} ScanIsBest(s: seq<int>)
    requires s != [] && Ascending(s)
    ensures var c := Scan(s); Scanned(multiset(s), s[|s| - 1], c.count, c.mode, c.maxCount)
  {
    if |s| == 1 {
      assert s == [s[0]];
    } else {
      var front, x := s[..|s| - 1], s[|s| - 1];
      ScanIsBest(front);
      ScanStep(front, x);
      FrontAndLast(s);
    }
  }

  lemma ScanStep(front: seq<int>, x: int)
    requires front != [] && front[|front| - 1] <= x
    requires var c := Scan(front); Scanned(multiset(front), front[|front| - 1], c.count, c.mode, c.maxCount)
    ensures var c := Scan(front + [x]); Scanned(multiset(front + [x]), x, c.count, c.mode, c.maxCount)
  {
    var c, last := Scan(front), front[|front| - 1];
    assert (front + [x])[..|front|] == front;
    assert multiset(front + [x]) == multiset(front) + multiset{x};
    if x == last {
      SameValueStep(multiset(front), last, c.mode, c.maxCount);
    } else {
      NewValueStep(multiset(front), last, x, c.mode, c.maxCount);
    }
  }

  /** `mode` is the mode of the values other than the last one, `maxCount` its multiplicity; or no
      other value has been seen and the mode is the last value itself. */
  ghost predicate Best(m: multiset<int>, last: int, mode: int, maxCount: nat) {
    && last in m && mode <= last && (forall x <- m :: x <= last)
    && (mode != last ==> mode in m && m[mode] == maxCount)
    && (mode == last ==> maxCount == 1 && forall x <- m :: x == last)
    && forall x <- m :: x != last ==> m[x] <= maxCount && (x < mode ==> m[x] < maxCount)
  }

  /** The state of the scan: `count` is how often the last value has been seen. */
  ghost predicate Scanned(m: multiset<int>, last: int, count: nat, mode: int, maxCount: nat) {
    count == m[last] && Best(m, last, mode, maxCount)
  }

  lemma SameValueStep(m: multiset<int>, last: int, mode: int, maxCount: nat)
    requires Best(m, last, mode, maxCount)
    ensures Scanned(m + multiset{last}, last, m[last] + 1, mode, maxCount)
  {
    assert forall x :: (m + multiset{last})[x] == if x == last then m[x] + 1 else m[x];
  }

  lemma NewValueStep(m: multiset<int>, last: int, x: int, mode: int, maxCount: nat)
    requires Best(m, last, mode, maxCount) && last < x
    ensures Scanned(m + multiset{x}, x, 1,
      if m[last] > maxCount then last else mode, if m[last] > maxCount then m[last] else maxCount)
  {
    assert x !in m;
    assert forall y :: (m + multiset{x})[y] == if y == x then 1 else m[y];
  }

  lemma BestIsMode(m: multiset<int>, last: int, mode: int, maxCount: nat)
    requires Best(m, last, mode, maxCount)
    ensures IsMode(m, if m[last] > maxCount then last else mode)
  {
  }

  lemma SortedSamples(samples: seq<int>)
    ensures var r := AddAll(IntLess(), false, samples);
      Ascending(r) && multiset(r) == multiset(samples) && |r| == |samples|
  {
    AddAllIsStableSort(IntLess(), samples);
    AddAllMultiset(samples);
    var r := AddAll(IntLess(), false, samples);
    assert |multiset(r)| == |r| && |multiset(samples)| == |samples|;
    assert forall i, j :: 0 <= i < j < |r| ==> !IntLess()(r[j], r[i]);
  }

  lemma {:induction false} AddAllMultiset(samples: seq<int>)
    ensures multiset(AddAll(IntLess(), false, samples)) == multiset(samples)
  {
    if samples != [] {
      var front, last := samples[..|samples| - 1], samples[|samples| - 1];
      AddAllMultiset(front);
      var r := AddAll(IntLess(), false, front);
      InsertedMultiset(r, LowerBound(IntLess(), r, last), last);
      assert samples == front + [last];
    }
  }
}
