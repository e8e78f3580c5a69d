/** Repeated replacement (`replace_substr`) and `remove_double_spaces` of `cpp/src/s.hpp`. */
module Replacement {
  import opened Wrappers

  predicate At(s: string, o: string, i: nat) {
    i + |o| <= |s| && s[i..i + |o|] == o
  }

  ghost predicate Contains(s: string, o: string) {
    exists i: nat :: At(s, o, i)
  }

  /** `find`: the first occurrence at or after `from`. */
  function FindFrom(s: string, o: string, from: nat): (r: Option<nat>)
    requires from <= |s|
    decreases |s| - from
  {
    if At(s, o, from) then Some(from)
    else if from == |s| then None
    else FindFrom(s, o, from + 1)
  }

  lemma {:induction false} FindFromFinds(s: string, o: string, from: nat)
    requires from <= |s|
    ensures var r := FindFrom(s, o, from);
      && (r.Some? ==> from <= r.value && At(s, o, r.value) && forall i: nat :: from <= i < r.value ==> !At(s, o, i))
      && (r.None? ==> forall i: nat :: from <= i ==> !At(s, o, i))
    decreases |s| - from
  {
    if !At(s, o, from) && from < |s| {
      FindFromFinds(s, o, from + 1);
    }
  }

  function ReplacedAt(s: string, o: string, r: string, i: nat): string
    requires At(s, o, i)
  {
    s[..i] + r + s[i + |o|..]
  }

  /** The text after n turns of the loop; a text without the pattern no longer changes. */
  function Replaced(s: string, o: string, r: string, n: nat): string
    decreases n
  {
    if n == 0 then s
    else
      match FindFrom(s, o, 0)
      case None => s
      case Some(i) => FindFromFinds(s, o, 0); Replaced(ReplacedAt(s, o, r, i), o, r, n - 1)
  }

  /** The loop ends: after some number of turns no occurrence is left. */
  ghost predicate Ends(s: string, o: string, r: string) {
    exists n: nat :: !Contains(Replaced(s, o, r, n), o)
  }

  /** `replace_substr`: searches from the start again after every replacement. */
  method ReplaceSubstr(text: string, o: string, r: string) returns (s: string, replaced: bool)
    requires text != "" ==> Ends(text, o, r)
    ensures text == "" ==> s == "" && !replaced
    ensures text != "" ==> !Contains(s, o) && (replaced <==> Contains(text, o))
    ensures exists n: nat :: s == Replaced(text, o, r, n)
    ensures !replaced ==> s == text
  {
    s, replaced := text, false;
    if |s| == 0 {
      assert s == Replaced(text, o, r, 0);
      return;
    }
    ghost var total: nat :| !Contains(Replaced(text, o, r, total), o);
    ghost var n := 0;
    FindFromFinds(s, o, 0);
    var i := FindFrom(s, o, 0);
    while i.Some?
      invariant n <= total && s == Replaced(text, o, r, n)
      invariant Replaced(s, o, r, total - n) == Replaced(text, o, r, total)
      invariant i == FindFrom(s, o, 0) && (replaced <==> n > 0)
      invariant n > 0 ==> Contains(text, o)
      invariant n == 0 ==> s == text
      decreases total - n
    {
      FindFromFinds(s, o, 0);
      ReplacedOneMore(text, o, r, n);
      s := ReplacedAt(s, o, r, i.value);
      replaced := true;
      n := n + 1;
      i := FindFrom(s, o, 0);
    }
    FindFromFinds(s, o, 0);
  }

  lemma {:induction false} ReplacedOneMore(s: string, o: string, r: string, n: nat)
    requires FindFrom(Replaced(s, o, r, n), o, 0).Some?
    ensures var t := Replaced(s, o, r, n); var i := FindFrom(t, o, 0).value;
      At(t, o, i) && Replaced(s, o, r, n + 1) == ReplacedAt(t, o, r, i)
    ensures Contains(s, o)
    decreases n
  {
    FindFromFinds(s, o, 0);
    var i := FindFrom(s, o, 0);
    if n > 0 && i.Some? {
      ReplacedOneMore(ReplacedAt(s, o, r, i.value), o, r, n - 1);
    }
  }

  /** One turn puts the replacement where the first occurrence of the pattern stood. */
  lemma OneTurn(s: string, o: string, r: string) returns (before: string, after: string)
    requires Contains(s, o)
    ensures s == before + o + after && Replaced(s, o, r, 1) == before + r + after
    ensures forall i :: 0 <= i < |before| ==> !At(s, o, i)
  {
    FindFromFinds(s, o, 0);
    var i := FindFrom(s, o, 0).value;
    before, after := s[..i], s[i + |o|..];
    AroundOccurrence(s, o, i);
    assert Replaced(s, o, r, 1) == Replaced(ReplacedAt(s, o, r, i), o, r, 0);
  }

  /** Every c replaced by r, all other characters kept. */
  function Substituted(s: string, c: char, r: string): string {
    if s == "" then "" else (if s[0] == c then r else [s[0]]) + Substituted(s[1..], c, r)
  }

  lemma {:induction false} SubstitutedConcat(s: string, t: string, c: char, r: string)
    ensures Substituted(s + t, c, r) == Substituted(s, c, r) + Substituted(t, c, r)
  {
    if s == "" {
      assert s + t == t;
    } else {
      assert (s + t)[1..] == s[1..] + t;
      SubstitutedConcat(s[1..], t, c, r);
    }
  }

  lemma {:induction false} NothingToSubstitute(s: string, c: char, r: string)
    requires c !in s
    ensures Substituted(s, c, r) == s
  {
    if s != "" {
      NothingToSubstitute(s[1..], c, r);
    }
  }

  /** A turn for a pattern of one character, which the replacement does not hold, changes nothing in
      what the text becomes. */
  lemma TurnSubstitutes(a: string, b: string, c: char, r: string)
    requires c !in r
    ensures Substituted(a + r + b, c, r) == Substituted(a + [c] + b, c, r)
  {
    SubstitutedConcat(a + r, b, c, r);
    SubstitutedConcat(a, r, c, r);
    SubstitutedConcat(a + [c], b, c, r);
    SubstitutedConcat(a, [c], c, r);
    NothingToSubstitute(r, c, r);
    assert [c][1..] == "" && Substituted([c], c, r) == r + "";
  }

  lemma {:induction false} TurnsSubstitute(s: string, c: char, r: string, n: nat)
    requires c !in r
    ensures Substituted(Replaced(s, [c], r, n), c, r) == Substituted(s, c, r)
    decreases n
  {
    FindFromFinds(s, [c], 0);
    var i := FindFrom(s, [c], 0);
    if n > 0 && i.Some? {
      AroundOccurrence(s, [c], i.value);
      TurnSubstitutes(s[..i.value], s[i.value + 1..], c, r);
      TurnsSubstitute(ReplacedAt(s, [c], r, i.value), c, r, n - 1);
    }
  }

  /** For a pattern of one character that the replacement does not hold, the text in which the loop
      ends has every such character replaced and every other one kept. */
  lemma OneCharacterReplaced(s: string, c: char, r: string, n: nat)
    requires c !in r && !Contains(Replaced(s, [c], r, n), [c])
    ensures Replaced(s, [c], r, n) == Substituted(s, c, r)
  {
    var t := Replaced(s, [c], r, n);
    TurnsSubstitute(s, c, r, n);
    if c in t {
      var k :| 0 <= k < |t| && t[k] == c;
      assert t[k..k + 1] == [c];
      assert At(t, [c], k);
    }
    NothingToSubstitute(t, c, r);
  }

  // ---------- When the loop ends ----------

  /** The sum of the weights of a text's characters. */
  function Weight(w: char -> nat, s: string): nat {
    if s == "" then 0 else w(s[0]) + Weight(w, s[1..])
  }

  lemma {:induction false} WeightConcat(w: char -> nat, s: string, t: string)
    ensures Weight(w, s + t) == Weight(w, s) + Weight(w, t)
  {
    if s == "" {
      assert s + t == t;
    } else {
      assert (s + t)[1..] == s[1..] + t;
      WeightConcat(w, s[1..], t);
    }
  }

  /** Replacing changes the weight by as much as pattern and replacement differ. */
  lemma WeightReplaced(w: char -> nat, s: string, o: string, r: string, i: nat)
    requires At(s, o, i)
    ensures Weight(w, ReplacedAt(s, o, r, i)) + Weight(w, o) == Weight(w, s) + Weight(w, r)
  {
    var a, b := s[..i], s[i + |o|..];
    AroundOccurrence(s, o, i);
    WeightConcat(w, a + o, b);
    WeightConcat(w, a, o);
    WeightConcat(w, a + r, b);
    WeightConcat(w, a, r);
  }

  /** The loop ends if it ends after one more turn. */
  lemma EndsAfterTurn(s: string, o: string, r: string, i: nat)
    requires FindFrom(s, o, 0) == Some(i) && At(s, o, i) && Ends(ReplacedAt(s, o, r, i), o, r)
    ensures Ends(s, o, r)
  {
    var t := ReplacedAt(s, o, r, i);
    var n: nat :| !Contains(Replaced(t, o, r, n), o);
    assert Replaced(s, o, r, n + 1) == Replaced(t, o, r, n);
  }

  /** A replacement lighter than the pattern, whatever the characters weigh, always ends. */
  lemma {:induction false} LighterEnds(w: char -> nat, s: string, o: string, r: string)
    requires Weight(w, r) < Weight(w, o)
    ensures Ends(s, o, r)
    decreases Weight(w, s)
  {
    FindFromFinds(s, o, 0);
    match FindFrom(s, o, 0)
    case None => assert Replaced(s, o, r, 0) == s;
    case Some(i) =>
      WeightReplaced(w, s, o, r, i);
      LighterEnds(w, ReplacedAt(s, o, r, i), o, r);
      EndsAfterTurn(s, o, r, i);
  }

  lemma {:induction false} LengthIsWeight(s: string)
    ensures Weight(_ => 1, s) == |s|
  {
    if s != "" {
      LengthIsWeight(s[1..]);
    }
  }

  /** A replacement shorter than the pattern always ends. */
  lemma ShorterEnds(s: string, o: string, r: string)
    requires |r| < |o|
    ensures Ends(s, o, r)
  {
    LengthIsWeight(o);
    LengthIsWeight(r);
    LighterEnds(_ => 1, s, o, r);
  }

  const CHARACTERS := 0x11_0000

  /** A text read as a number, its characters as digits. */
  function Number(s: string): nat {
    if s == "" then 0 else Number(s[..|s| - 1]) * CHARACTERS + s[|s| - 1] as nat
  }

  function Scale(n: nat): (k: nat)
    ensures k > 0
  {
    if n == 0 then 1 else Scale(n - 1) * CHARACTERS
  }

  lemma {:induction false} NumberBound(s: string)
    ensures Number(s) < Scale(|s|)
  {
    if s != "" {
      NumberBound(s[..|s| - 1]);
    }
  }

  lemma {:induction false} NumberConcat(s: string, t: string)
    ensures Number(s + t) == Number(s) * Scale(|t|) + Number(t)
  {
    if t == "" {
      assert s + t == s;
    } else {
      var front := t[..|t| - 1];
      assert (s + t)[..|s + t| - 1] == s + front;
      NumberConcat(s, front);
      Distribute(Number(s), Scale(|front|), Number(front), CHARACTERS);
    }
  }

  lemma Distribute(a: nat, b: nat, c: nat, d: nat)
    ensures (a * b + c) * d == a * (b * d) + c * d
  {
  }

  lemma {:induction false} NumberDiffers(s: string, t: string)
    requires |s| == |t| && s != t
    ensures Number(s) != Number(t)
  {
    var front, front' := s[..|s| - 1], t[..|t| - 1];
    assert s == front + [s[|s| - 1]] && t == front' + [t[|t| - 1]];
    if front != front' {
      NumberDiffers(front, front');
    }
  }

  /** A replacement of the pattern's length moves the number of the text the way it differs from
      the pattern. */
  lemma NumberReplaced(s: string, o: string, r: string, i: nat)
    requires At(s, o, i) && |r| == |o|
    ensures Number(r) < Number(o) ==> Number(ReplacedAt(s, o, r, i)) < Number(s)
    ensures Number(r) > Number(o) ==> Number(ReplacedAt(s, o, r, i)) > Number(s)
  {
    AroundOccurrence(s, o, i);
    NumberMoves(s[..i], o, r, s[i + |o|..]);
  }

  lemma AroundOccurrence(s: string, o: string, i: nat)
    requires At(s, o, i)
    ensures s == s[..i] + o + s[i + |o|..]
  {
  }

  lemma NumberMoves(a: string, o: string, r: string, b: string)
    requires |r| == |o|
    ensures Number(r) < Number(o) ==> Number(a + r + b) < Number(a + o + b)
    ensures Number(r) > Number(o) ==> Number(a + r + b) > Number(a + o + b)
  {
    NumberConcat(a, o);
    NumberConcat(a, r);
    if Number(r) < Number(o) {
      SmallerBefore(a + r, a + o, b);
    } else if Number(r) > Number(o) {
      SmallerBefore(a + o, a + r, b);
    }
  }

  lemma {:induction false} SmallerBefore(s: string, t: string, b: string)
    requires Number(s) < Number(t)
    ensures Number(s + b) < Number(t + b)
  {
    if b == "" {
      assert s + b == s && t + b == t;
    } else {
      SmallerBefore(s, t, b[..|b| - 1]);
      assert (s + b)[..|s + b| - 1] == s + b[..|b| - 1];
      assert (t + b)[..|t + b| - 1] == t + b[..|b| - 1];
    }
  }

  /** Another replacement of the same length always ends. */
  lemma {:induction false} SameLengthEnds(s: string, o: string, r: string)
    requires |r| == |o| && r != o
    ensures Ends(s, o, r)
    decreases if Number(r) < Number(o) then Number(s) else Scale(|s|) - Number(s)
  {
    FindFromFinds(s, o, 0);
    NumberDiffers(r, o);
    NumberBound(s);
    match FindFrom(s, o, 0)
    case None => assert Replaced(s, o, r, 0) == s;
    case Some(i) =>
      NumberReplaced(s, o, r, i);
      NumberBound(ReplacedAt(s, o, r, i));
      SameLengthEnds(ReplacedAt(s, o, r, i), o, r);
      EndsAfterTurn(s, o, r, i);
  }

  lemma OnlyItself(r: string, o: string)
    requires |r| <= |o|
    ensures Contains(r, o) <==> r == o
  {
    if Contains(r, o) {
      var i: nat :| At(r, o, i);
      assert r[i..i + |o|] == r;
    }
    if r == o {
      assert r[0..0 + |o|] == r;
      assert At(r, o, 0);
    }
  }

  /** Weighs one character and no other. */
  function Only(c: char): char -> nat {
    x => if x == c then 1 else 0
  }

  lemma {:induction false} CharacterOccurs(c: char, s: string)
    requires Weight(Only(c), s) > 0
    ensures Contains(s, [c])
  {
    if s[0] == c {
      assert s[0..0 + 1] == [c];
      assert At(s, [c], 0);
    } else {
      CharacterOccurs(c, s[1..]);
      var i: nat :| At(s[1..], [c], i);
      AtWhole(s, [c], i);
    }
  }

  lemma EmptyOccurs(s: string)
    ensures Contains(s, "")
  {
    assert s[0..0] == "";
    assert At(s, "", 0);
  }

  /** The loop ends, for a replacement no longer than the pattern or a pattern of at most one
      character, if and only if the replacement does not bring the pattern back or the text does
      not hold it. */
  lemma EndsExactly(s: string, o: string, r: string)
    requires |r| <= |o| || |o| <= 1
    ensures Ends(s, o, r) <==> !Contains(r, o) || !Contains(s, o)
    ensures |r| <= |o| ==> (Ends(s, o, r) <==> r != o || !Contains(s, o))
  {
    EmptyOccurs(r);
    if |r| <= |o| {
      OnlyItself(r, o);
    }
    if !Contains(s, o) {
      assert Replaced(s, o, r, 0) == s;
    } else if Contains(r, o) {
      ContainingNeverEnds(s, o, r);
    } else if |r| < |o| {
      ShorterEnds(s, o, r);
    } else if |r| == |o| {
      SameLengthEnds(s, o, r);
    } else {
      assert o == [o[0]];
      OneCharacterEnds(s, o[0], r);
    }
  }

  lemma OneCharacterEnds(s: string, c: char, r: string)
    requires !Contains(r, [c])
    ensures Ends(s, [c], r)
  {
    if Weight(Only(c), r) > 0 {
      CharacterOccurs(c, r);
    }
    assert [c][1..] == "";
    assert Weight(Only(c), [c]) == 1;
    LighterEnds(Only(c), s, [c], r);
  }

  /** A replacement that contains the pattern never ends once the pattern occurs. */
  lemma {:induction false} ContainingNeverEnds(s: string, o: string, r: string)
    requires Contains(r, o) && Contains(s, o)
    ensures !Ends(s, o, r)
  {
    forall n: nat ensures Contains(Replaced(s, o, r, n), o) {
      StillContains(s, o, r, n);
    }
  }

  lemma AtInside(a: string, r: string, b: string, o: string, k: nat)
    requires At(r, o, k)
    ensures At(a + r + b, o, |a| + k)
  {
    assert (a + r + b)[|a| + k..|a| + k + |o|] == r[k..k + |o|];
  }

  lemma {:induction false} StillContains(s: string, o: string, r: string, n: nat)
    requires Contains(r, o) && Contains(s, o)
    ensures Contains(Replaced(s, o, r, n), o)
    decreases n
  {
    FindFromFinds(s, o, 0);
    var found := FindFrom(s, o, 0);
    if n > 0 && found.Some? {
      var i := found.value;
      var t := ReplacedAt(s, o, r, i);
      var k: nat :| At(r, o, k);
      AtInside(s[..i], r, s[i + |o|..], o, k);
      StillContains(t, o, r, n - 1);
    }
  }

  // ---------- Double spaces ----------

  /** Every run of spaces collapsed to one, all else kept in order. */
  function Collapsed(s: string): string {
    if |s| < 2 then s
    else if s[0] == ' ' && s[1] == ' ' then Collapsed(s[1..])
    else [s[0]] + Collapsed(s[1..])
  }

  function WithoutSpaces(s: string): string {
    if s == "" then "" else (if s[0] == ' ' then "" else [s[0]]) + WithoutSpaces(s[1..])
  }

  lemma {:induction false} CollapsedKeepsTheRest(s: string)
    ensures WithoutSpaces(Collapsed(s)) == WithoutSpaces(s)
    ensures s != "" ==> Collapsed(s) != "" && Collapsed(s)[0] == s[0]
  {
    if |s| >= 2 {
      CollapsedKeepsTheRest(s[1..]);
      if !(s[0] == ' ' && s[1] == ' ') {
        assert Collapsed(s)[1..] == Collapsed(s[1..]);
      }
    }
  }

  lemma {:induction false} CollapsedHasNoDouble(s: string)
    ensures !Contains(Collapsed(s), "  ")
  {
    if |s| >= 2 {
      CollapsedHasNoDouble(s[1..]);
      CollapsedKeepsTheRest(s[1..]);
      if !(s[0] == ' ' && s[1] == ' ') {
        var c := Collapsed(s);
        assert c[1..] == Collapsed(s[1..]) && c[0..2] == [s[0], s[1]];
        forall i: nat ensures !At(c, "  ", i) {
          if At(c, "  ", i) {
            if i > 0 {
              AtTail(c, "  ", i);
            }
          }
        }
      }
    }
  }

  lemma AtTail(s: string, o: string, i: nat)
    requires i > 0 && At(s, o, i)
    ensures At(s[1..], o, i - 1)
  {
    assert s[1..][i - 1..i - 1 + |o|] == s[i..i + |o|];
  }

  lemma AtWhole(s: string, o: string, i: nat)
    requires s != "" && At(s[1..], o, i)
    ensures At(s, o, i + 1)
  {
    assert s[1..][i..i + |o|] == s[i + 1..i + 1 + |o|];
  }

  /** A text without double spaces is collapsed already. */
  lemma {:induction false} NoDoubleIsCollapsed(s: string)
    requires !Contains(s, "  ")
    ensures Collapsed(s) == s
  {
    if |s| >= 2 {
      assert !At(s, "  ", 0) && s[0..2] == [s[0], s[1]];
      forall i: nat ensures !At(s[1..], "  ", i) {
        if At(s[1..], "  ", i) {
          AtWhole(s, "  ", i);
        }
      }
      NoDoubleIsCollapsed(s[1..]);
    }
  }

  /** Replacing one double space does not change what the text collapses to. */
  lemma {:induction false} ReplacingKeepsCollapsed(s: string, i: nat)
    requires At(s, "  ", i)
    ensures Collapsed(ReplacedAt(s, "  ", " ", i)) == Collapsed(s)
  {
    var t := ReplacedAt(s, "  ", " ", i);
    assert s[i..i + 2][0] == ' ' && s[i..i + 2][1] == ' ';
    if i == 0 {
      assert t == s[1..];
    } else {
      assert s[1..][i - 1..i + 1] == s[i..i + 2];
      ReplacingKeepsCollapsed(s[1..], i - 1);
      assert t[1..] == ReplacedAt(s[1..], "  ", " ", i - 1);
      assert t[0] == s[0] && t[1] == s[1];
    }
  }

  lemma {:induction false} ReplacedKeepsCollapsed(s: string, n: nat)
    ensures Collapsed(Replaced(s, "  ", " ", n)) == Collapsed(s)
    decreases n
  {
    FindFromFinds(s, "  ", 0);
    var i := FindFrom(s, "  ", 0);
    if n > 0 && i.Some? {
      ReplacingKeepsCollapsed(s, i.value);
      ReplacedKeepsCollapsed(ReplacedAt(s, "  ", " ", i.value), n - 1);
    }
  }

  /** `remove_double_spaces`: calls `replace_substr` until it reports no replacement. */
  method RemoveDoubleSpaces(text: string) returns (s: string)
    ensures s == Collapsed(text)
    ensures !Contains(s, "  ") && WithoutSpaces(s) == WithoutSpaces(text)
  {
    CollapsedHasNoDouble(text);
    CollapsedKeepsTheRest(text);
    s := text;
    if |s| == 0 {
      return;
    }
    var again := true;
    ghost var doubles := true;
    while again
      invariant Collapsed(s) == Collapsed(text)
      invariant !doubles ==> !Contains(s, "  ")
      invariant !again ==> s == Collapsed(text)
      decreases again, doubles
    {
      ShorterEnds(s, "  ", " ");
      ghost var before := s;
      s, again := ReplaceSubstr(s, "  ", " ");
      ghost var n: nat :| s == Replaced(before, "  ", " ", n);
      ReplacedKeepsCollapsed(before, n);
      doubles := false;
      if !again {
        NoDoubleIsCollapsed(s);
      }
    }
  }
}
