/** Splitting, trimming and repeated replacement of `cpp/src/s.hpp`. */
module Strings {
  import opened Sequences

  // ---------- Fields ----------

  /** The first position of c at or after `from`, or the length: `find` with npos at the end. */
  function IndexFrom(s: string, c: char, from: nat): (j: nat)
    requires from <= |s|
    ensures from <= j <= |s|
    decreases |s| - from
  {
    if from == |s| || s[from] == c then from else IndexFrom(s, c, from + 1)
  }

  lemma {:induction false} IndexIsFirst(s: string, c: char, from: nat)
    requires from <= |s|
    ensures var j := IndexFrom(s, c, from);
      (j < |s| ==> s[j] == c) && forall k :: from <= k < j ==> s[k] != c
    decreases |s| - from
  {
    if from < |s| && s[from] != c {
      IndexIsFirst(s, c, from + 1);
    }
  }

  lemma IndexIs(s: string, c: char, from: nat, j: nat)
    requires from <= j <= |s| && (j < |s| ==> s[j] == c)
    requires forall k :: from <= k < j ==> s[k] != c
    ensures IndexFrom(s, c, from) == j
  {
    IndexIsFirst(s, c, from);
    var i := IndexFrom(s, c, from);
    assert !(i < j) && !(j < i);
  }

  /** The text between separators; always at least one field. */
  function Fields(s: string, c: char): (fields: seq<string>)
    ensures fields != []
  {
    var j := IndexFrom(s, c, 0);
    if j == |s| then [s] else [s[..j]] + Fields(s[j + 1..], c)
  }

  lemma {:induction false} FieldsAreFree(s: string, c: char)
    ensures forall k :: 0 <= k < |Fields(s, c)| ==> c !in Fields(s, c)[k]
  {
    var j := IndexFrom(s, c, 0);
    IndexIsFirst(s, c, 0);
    if j < |s| {
      FieldsAreFree(s[j + 1..], c);
    }
  }

  function Join(fields: seq<string>, c: char): string
    requires fields != []
  {
    if |fields| == 1 then fields[0] else fields[0] + [c] + Join(fields[1..], c)
  }

  lemma {:induction false} JoinFields(s: string, c: char)
    ensures Join(Fields(s, c), c) == s
  {
    var j := IndexFrom(s, c, 0);
    IndexIsFirst(s, c, 0);
    if j < |s| {
      JoinFields(s[j + 1..], c);
      JoinFirst(s[..j], Fields(s[j + 1..], c), c);
      AroundElement(s, j);
    }
  }

  lemma JoinFirst(first: string, rest: seq<string>, c: char)
    requires rest != []
    ensures Join([first] + rest, c) == first + [c] + Join(rest, c)
  {
    assert ([first] + rest)[1..] == rest;
  }

  lemma AroundElement(s: string, j: nat)
    requires j < |s|
    ensures s == s[..j] + [s[j]] + s[j + 1..]
  {
  }

  /** No other list of separator-free fields joins to the same text. */
  lemma {:induction false} FieldsOfJoin(fields: seq<string>, c: char)
    requires fields != [] && forall k :: 0 <= k < |fields| ==> c !in fields[k]
    ensures Fields(Join(fields, c), c) == fields
  {
    var s, first := Join(fields, c), fields[0];
    if |fields| > 1 {
      var rest := Join(fields[1..], c);
      FieldsOfJoin(fields[1..], c);
      assert s == first + ([c] + rest);
      IndexAfter(first, c, [c] + rest);
      assert s[..|first|] == first && s[|first| + 1..] == rest;
      assert fields == [first] + fields[1..];
    } else {
      IndexAfter(first, c, "");
      assert s == first + "";
    }
  }

  lemma IndexAfter(first: string, c: char, tail: string)
    requires c !in first && (tail == "" || tail[0] == c)
    ensures IndexFrom(first + tail, c, 0) == |first|
  {
    var s := first + tail;
    assert forall k :: 0 <= k < |first| ==> s[k] == first[k] && s[k] in first;
    IndexIs(s, c, 0, |first|);
  }

  // ---------- Trimming ----------

  predicate IsSpace(c: char) {
    c in {' ', '\t', '\n', '\r', 11 as char, 12 as char}
  }

  /** The space and the five control characters from tab to carriage return. */
  lemma SpacesAre(c: char)
    ensures IsSpace(c) <==> c as int == 32 || 9 <= c as int <= 13
  {
  }

  function RightTrimmed(s: string): string {
    if s != "" && IsSpace(s[|s| - 1]) then RightTrimmed(s[..|s| - 1]) else s
  }

  function LeftTrimmed(s: string): string {
    if s != "" && IsSpace(s[0]) then LeftTrimmed(s[1..]) else s
  }

  function Trimmed(s: string): string {
    LeftTrimmed(RightTrimmed(s))
  }

  predicate AllSpace(s: string) {
    forall k :: 0 <= k < |s| ==> IsSpace(s[k])
  }

  lemma {:induction false} RightTrimmedOff(s: string) returns (after: string)
    ensures AllSpace(after) && s == RightTrimmed(s) + after
    ensures RightTrimmed(s) != "" ==> !IsSpace(RightTrimmed(s)[|RightTrimmed(s)| - 1])
  {
    after := "";
    if s != "" && IsSpace(s[|s| - 1]) {
      after := RightTrimmedOff(s[..|s| - 1]);
      after := after + [s[|s| - 1]];
    }
  }

  lemma {:induction false} LeftTrimmedOff(s: string) returns (before: string)
    ensures AllSpace(before) && s == before + LeftTrimmed(s)
    ensures LeftTrimmed(s) != "" ==> !IsSpace(LeftTrimmed(s)[0])
  {
    before := "";
    if s != "" && IsSpace(s[0]) {
      before := LeftTrimmedOff(s[1..]);
      before := [s[0]] + before;
    }
  }

  /** Trimming takes off spaces only, and all of them at both ends. */
  lemma TrimmedOff(s: string) returns (before: string, after: string)
    ensures AllSpace(before) && AllSpace(after) && s == before + Trimmed(s) + after
    ensures Trimmed(s) != "" ==> !IsSpace(Trimmed(s)[0]) && !IsSpace(Trimmed(s)[|Trimmed(s)| - 1])
  {
    after := RightTrimmedOff(s);
    before := LeftTrimmedOff(RightTrimmed(s));
    if Trimmed(s) != "" {
      assert RightTrimmed(s)[|RightTrimmed(s)| - 1] == Trimmed(s)[|Trimmed(s)| - 1];
    }
  }

  // ---------- Splitting ----------

  /** One field as `split` inserts it: trimmed if asked, dropped if empty and empties are not kept. */
  function Kept(field: string, trim: bool, keepEmpty: bool): seq<string> {
    var f := if trim then Trimmed(field) else field;
    if keepEmpty || f != "" then [f] else []
  }

  function AllKept(fields: seq<string>, trim: bool, keepEmpty: bool): seq<string> {
    if fields == [] then [] else Kept(fields[0], trim, keepEmpty) + AllKept(fields[1..], trim, keepEmpty)
  }

  /** What `split` puts into an empty container. Without a separator the text goes in as it is,
      neither trimmed nor dropped when empty, whatever the flags say. */
  function SplitResult(s: string, c: char, trim: bool, keepEmpty: bool): seq<string> {
    if c !in s then [s] else AllKept(Fields(s, c), trim, keepEmpty)
  }

  method Split(s: string, c: char, trim: bool, keepEmpty: bool, container: seq<string>) returns (out: seq<string>)
    ensures out == container + SplitResult(s, c, trim, keepEmpty)
  {
    out := container;
    var i, j := 0, IndexFrom(s, c, 0);
    ghost var all := AllKept(Fields(s, c), trim, keepEmpty);
    IndexIsFirst(s, c, 0);
    if j == |s| {
      assert c !in s;
      out := out + [s];
    } else {
      assert s[j] in s && s[0..] == s;
      ghost var whole := container + all;
      while j != |s|
        invariant i <= j <= |s| && (j < |s| ==> j == IndexFrom(s, c, i))
        invariant whole == out + Remaining(s, c, i, j, trim, keepEmpty)
        decreases |s| - j
      {
        TurnOfSplit(out, s, c, i, j, trim, keepEmpty);
        out := out + Kept(s[i..j], trim, keepEmpty);
        i := j + 1;
        j := IndexFrom(s, c, i);
        if j == |s| {
          out := out + Kept(s[i..], trim, keepEmpty);
          assert out + [] == out;
        }
      }
    }
  }

  /** What the loop still has to insert; nothing once no separator is left. */
  ghost function Remaining(s: string, c: char, i: nat, j: nat, trim: bool, keepEmpty: bool): seq<string>
    requires i <= j <= |s|
  {
    if j == |s| then [] else AllKept(Fields(s[i..], c), trim, keepEmpty)
  }

  lemma FirstKept(f: string, rest: seq<string>, trim: bool, keepEmpty: bool)
    ensures AllKept([f] + rest, trim, keepEmpty) == Kept(f, trim, keepEmpty) + AllKept(rest, trim, keepEmpty)
  {
    assert ([f] + rest)[1..] == rest;
  }

  /** One turn of the loop inserts the field before the separator and, if it was the last
      separator, the field after it. */
  lemma TurnOfSplit(out: seq<string>, s: string, c: char, i: nat, j: nat, trim: bool, keepEmpty: bool)
    requires i <= j < |s| && j == IndexFrom(s, c, i)
    ensures var j' := IndexFrom(s, c, j + 1); var out' := out + Kept(s[i..j], trim, keepEmpty);
      out + Remaining(s, c, i, j, trim, keepEmpty) ==
        if j' == |s| then out' + Kept(s[j + 1..], trim, keepEmpty)
        else out' + Remaining(s, c, j + 1, j', trim, keepEmpty)
  {
    var next := RemainingStep(s, c, i, j, trim, keepEmpty);
    ConcatAssociates(out, Kept(s[i..j], trim, keepEmpty), next);
  }

  lemma RemainingStep(s: string, c: char, i: nat, j: nat, trim: bool, keepEmpty: bool)
    returns (next: seq<string>)
    requires i <= j < |s| && j == IndexFrom(s, c, i)
    ensures Remaining(s, c, i, j, trim, keepEmpty) == Kept(s[i..j], trim, keepEmpty) + next
    ensures IndexFrom(s, c, j + 1) == |s| ==> next == Kept(s[j + 1..], trim, keepEmpty)
    ensures IndexFrom(s, c, j + 1) < |s| ==> next == Remaining(s, c, j + 1, IndexFrom(s, c, j + 1), trim, keepEmpty)
  {
    var j' := IndexFrom(s, c, j + 1);
    next := AllKept(Fields(s[j + 1..], c), trim, keepEmpty);
    FieldsFrom(s, c, i, j);
    FirstKept(s[i..j], Fields(s[j + 1..], c), trim, keepEmpty);
    if j' == |s| {
      FieldsFrom(s, c, j + 1, j');
      LastKept(s[j + 1..], trim, keepEmpty);
    }
  }

  lemma LastKept(f: string, trim: bool, keepEmpty: bool)
    ensures AllKept([f], trim, keepEmpty) == Kept(f, trim, keepEmpty)
  {
    assert [f][1..] == [];
  }

  lemma IndexShift(s: string, c: char, i: nat)
    requires i <= |s|
    ensures IndexFrom(s[i..], c, 0) == IndexFrom(s, c, i) - i
  {
    var t, j := s[i..], IndexFrom(s, c, i);
    IndexIsFirst(s, c, i);
    assert forall k :: 0 <= k < |t| ==> t[k] == s[i + k];
    IndexIs(t, c, 0, j - i);
  }

  /** The fields of the rest of the text, in terms of the next separator. */
  lemma FieldsFrom(s: string, c: char, i: nat, j: nat)
    requires i <= |s| && j == IndexFrom(s, c, i)
    ensures j == |s| ==> Fields(s[i..], c) == [s[i..]]
    ensures j < |s| ==> Fields(s[i..], c) == [s[i..j]] + Fields(s[j + 1..], c)
  {
    IndexShift(s, c, i);
    if j < |s| {
      SliceOfRest(s, i, j);
      FieldsStep(s[i..], c, s[i..j], s[j + 1..]);
    }
  }

  lemma SliceOfRest(s: string, i: nat, j: nat)
    requires i <= j < |s|
    ensures s[i..][..j - i] == s[i..j] && s[i..][j - i + 1..] == s[j + 1..]
  {
  }

  lemma FieldsStep(t: string, c: char, first: string, rest: string)
    requires IndexFrom(t, c, 0) == |first| < |t|
    requires first == t[..|first|] && rest == t[|first| + 1..]
    ensures Fields(t, c) == [first] + Fields(rest, c)
  {
  }

  /** With empties kept every field is there, trimmed if that is asked for and even if it is blank. */
  lemma SplitKeepsEmpties(s: string, c: char, trim: bool)
    requires c in s
    ensures var fields := Fields(s, c); var r := SplitResult(s, c, trim, true);
      |r| == |fields| && forall k :: 0 <= k < |r| ==> r[k] == if trim then Trimmed(fields[k]) else fields[k]
  {
    AllKeptAre(Fields(s, c), trim);
  }

  lemma {:induction false} AllKeptAre(fields: seq<string>, trim: bool)
    ensures var r := AllKept(fields, trim, true);
      |r| == |fields| && forall k :: 0 <= k < |r| ==> r[k] == if trim then Trimmed(fields[k]) else fields[k]
  {
    if fields != [] {
      AllKeptAre(fields[1..], trim);
    }
  }

  function NonEmpty(fields: seq<string>): seq<string> {
    if fields == [] then []
    else if fields[0] == "" then NonEmpty(fields[1..])
    else [fields[0]] + NonEmpty(fields[1..])
  }

  /** Without them it is the same list, less the fields that are empty or blank. */
  lemma SplitDropsEmpties(s: string, c: char, trim: bool)
    requires c in s
    ensures SplitResult(s, c, trim, false) == NonEmpty(SplitResult(s, c, trim, true))
  {
    AllKeptAreNonEmpty(Fields(s, c), trim);
  }

  lemma {:induction false} AllKeptAreNonEmpty(fields: seq<string>, trim: bool)
    ensures AllKept(fields, trim, false) == NonEmpty(AllKept(fields, trim, true))
  {
    if fields != [] {
      AllKeptAreNonEmpty(fields[1..], trim);
      var f := if trim then Trimmed(fields[0]) else fields[0];
      assert AllKept(fields, trim, true)[1..] == AllKept(fields[1..], trim, true);
    }
  }

  /** With empties kept and no trimming, splitting loses nothing. */
  lemma SplitJoins(s: string, c: char)
    ensures var fields := SplitResult(s, c, false, true);
      fields != [] && Join(fields, c) == s && forall k :: 0 <= k < |fields| ==> c !in fields[k]
  {
    AllKeptIsAll(Fields(s, c));
    JoinFields(s, c);
    FieldsAreFree(s, c);
    IndexIsFirst(s, c, 0);
  }

  lemma {:induction false} AllKeptIsAll(fields: seq<string>)
    ensures AllKept(fields, false, true) == fields
  {
    if fields != [] {
      AllKeptIsAll(fields[1..]);
    }
  }

  /** The flags hold for every input if and only if a separator occurs or they would not change
      the text anyway. */
  lemma SplitHonoursFlags(s: string, c: char, trim: bool, keepEmpty: bool)
    ensures SplitResult(s, c, trim, keepEmpty) == AllKept(Fields(s, c), trim, keepEmpty)
      <==> c in s || ((trim ==> Trimmed(s) == s) && (s == "" ==> keepEmpty))
  {
    if c !in s {
      IndexIsFirst(s, c, 0);
      LastKept(s, trim, keepEmpty);
      var before, after := TrimmedOff(s);
    }
  }

  /** Without a separator a text of one space before a letter is not trimmed, and an empty text is
      not dropped, though both were asked for. */
  lemma SplitIgnoresFlags()
    ensures SplitResult(" a", ',', true, false) == [" a"] && AllKept(Fields(" a", ','), true, false) == ["a"]
    ensures SplitResult("", ',', true, false) == [""] && AllKept(Fields("", ','), true, false) == []
  {
    IndexIs(" a", ',', 0, 2);
    IndexIs("", ',', 0, 0);
    LastKept(" a", true, false);
    LastKept("", true, false);
    assert " a"[..1] == " " && " a"[1..] == "a";
    assert Trimmed(" a") == "a";
  }
}
