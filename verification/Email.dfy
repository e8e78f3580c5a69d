/** The e-mail validators and the `Email` record of `contact/e-mail.hpp`, on the fixed-size strings
    of `cpp/src/cs.hpp`. */
module Emails {
  import opened Wrappers
  import opened Sequences
  import opened Strings

  // ---------- Grammar ----------

  predicate Letter(c: char) {
    'a' <= c <= 'z' || 'A' <= c <= 'Z'
  }

  predicate AtomChar(c: char) {
    Letter(c) || '0' <= c <= '9' || c == '_' || c == '-' || c == '+'
  }

  predicate LabelChar(c: char) {
    Letter(c) || '0' <= c <= '9' || c == '-'
  }

  predicate Atom(s: string) {
    s != "" && forall k :: 0 <= k < |s| ==> AtomChar(s[k])
  }

  predicate Atoms(fields: seq<string>) {
    forall k :: 0 <= k < |fields| ==> Atom(fields[k])
  }

  predicate LabelChars(s: string) {
    forall k :: 0 <= k < |s| ==> LabelChar(s[k])
  }

  predicate Label(s: string) {
    1 <= |s| <= 63 && LabelChars(s) && s[0] != '-' && s[|s| - 1] != '-'
  }

  predicate Labels(fields: seq<string>) {
    forall k :: 0 <= k < |fields| ==> Label(fields[k])
  }

  predicate TopLabel(s: string) {
    |s| >= 2 && forall k :: 0 <= k < |s| ==> Letter(s[k])
  }

  /** A dot-atom as in section 3.2.3 of RFC 5322, over fewer characters, of at most the length in
      section 4.5.3.1.1 of RFC 5321. */
  predicate ValidLocal(s: string) {
    |s| <= 64 && Atoms(Fields(s, '.'))
  }

  /** Two or more labels as in section 2.3.4 of RFC 1035, the last one all letters, of at most the
      length in section 4.5.3.1.2 of RFC 5321. */
  predicate ValidDomain(s: string) {
    |s| <= 255 && DomainLabels(Fields(s, '.'))
  }

  predicate DomainLabels(labels: seq<string>) {
    |labels| >= 2 && Labels(labels) && TopLabel(Last(labels))
  }

  function Last(labels: seq<string>): string
    requires labels != []
  {
    labels[|labels| - 1]
  }

  /** A local part and a domain around the only `@`. */
  predicate ValidAddress(s: string) {
    var parts := Fields(s, '@');
    |parts| == 2 && ValidLocal(parts[0]) && ValidDomain(parts[1])
  }

  // ---------- The validators ----------

  /** What the loop over a local part looks for. */
  predicate DotAtoms(s: string) {
    && s != "" && s[0] != '.' && s[|s| - 1] != '.'
    && DotsApart(s) && forall k :: 0 <= k < |s| ==> AtomChar(s[k]) || s[k] == '.'
  }

  predicate DotsApart(s: string) {
    forall k :: 0 < k < |s| ==> s[k - 1] != '.' || s[k] != '.'
  }

  lemma {:induction false} DotAtomsAreFields(s: string)
    ensures DotAtoms(s) <==> Atoms(Fields(s, '.'))
  {
    var j := IndexFrom(s, '.', 0);
    IndexIsFirst(s, '.', 0);
    FieldsFrom(s, '.', 0, j);
    assert s[0..] == s;
    if j < |s| {
      var first, rest := s[..j], s[j + 1..];
      DotAtomsAreFields(rest);
      DotAtomsSplit(s, j);
      AtomsOfFirst(first, Fields(rest, '.'));
    } else {
      assert Fields(s, '.') == [s] + [];
      AtomsOfFirst(s, []);
      NoDots(s);
    }
  }

  lemma NoDots(s: string)
    requires forall k :: 0 <= k < |s| ==> s[k] != '.'
    ensures DotAtoms(s) <==> Atom(s)
  {
  }

  lemma AtomsOfFirst(first: string, rest: seq<string>)
    ensures Atoms([first] + rest) <==> Atom(first) && Atoms(rest)
  {
    var all := [first] + rest;
    assert all[0] == first && forall k :: 0 <= k < |rest| ==> rest[k] == all[k + 1];
  }

  lemma LabelsOfFirst(first: string, rest: seq<string>)
    ensures Labels([first] + rest) <==> Label(first) && Labels(rest)
  {
    var all := [first] + rest;
    assert all[0] == first && forall k :: 0 <= k < |rest| ==> rest[k] == all[k + 1];
  }

  lemma DotAtomsSplit(s: string, j: nat)
    requires j < |s| && s[j] == '.' && forall k :: 0 <= k < j ==> s[k] != '.'
    ensures DotAtoms(s) <==> Atom(s[..j]) && DotAtoms(s[j + 1..])
  {
    var first, rest := s[..j], s[j + 1..];
    assert forall k :: 0 <= k < |rest| ==> rest[k] == s[j + 1 + k];
    assert forall k :: j < k < |s| ==> s[k] == rest[k - j - 1];
    assert forall k :: 0 <= k < j ==> s[k] == first[k];
  }

  method IsValidLocalPart(lp: string) returns (ok: bool)
    ensures ok <==> ValidLocal(lp)
  {
    DotAtomsAreFields(lp);
    if lp == "" || |lp| > 64 {
      return false;
    }
    if lp[0] == '.' || lp[|lp| - 1] == '.' {
      return false;
    }
    var prevDot := false;
    for i := 0 to |lp|
      invariant prevDot <==> i > 0 && lp[i - 1] == '.'
      invariant DotsApart(lp[..i])
      invariant forall k :: 0 <= k < i ==> AtomChar(lp[k]) || lp[k] == '.'
    {
      var ch := lp[i];
      if ch == '.' {
        if prevDot {
          return false;
        }
        prevDot := true;
      } else {
        prevDot := false;
        if !AtomChar(ch) {
          return false;
        }
      }
    }
    assert lp[..|lp|] == lp;
    return true;
  }

  /** The position behind the last c, or 0: what `rfind` gives plus one, npos wrapping around. */
  function BehindLast(s: string, c: char): (p: nat)
    ensures p <= |s|
  {
    if s == "" then 0 else if s[|s| - 1] == c then |s| else BehindLast(s[..|s| - 1], c)
  }

  lemma {:induction false} BehindLastIsLast(s: string, c: char)
    ensures var p := BehindLast(s, c);
      (p > 0 ==> s[p - 1] == c) && forall k :: p <= k < |s| ==> s[k] != c
  {
    if s != "" && s[|s| - 1] != c {
      BehindLastIsLast(s[..|s| - 1], c);
    }
  }

  lemma {:induction false} LastField(s: string, c: char)
    ensures Last(Fields(s, c)) == s[BehindLast(s, c)..]
  {
    var j := IndexFrom(s, c, 0);
    IndexIsFirst(s, c, 0);
    if j == |s| {
      BehindLastIs(s, c, 0);
    } else {
      LastField(s[j + 1..], c);
      BehindLastBehind(s, c, j);
      SuffixOfRest(s, j + 1, BehindLast(s[j + 1..], c));
    }
  }

  lemma BehindLastBehind(s: string, c: char, j: nat)
    requires j < |s| && s[j] == c
    ensures BehindLast(s, c) == j + 1 + BehindLast(s[j + 1..], c)
  {
    var rest := s[j + 1..];
    var q := BehindLast(rest, c);
    BehindLastIsLast(rest, c);
    assert forall k :: j + 1 + q <= k < |s| ==> s[k] == rest[k - j - 1];
    BehindLastIs(s, c, j + 1 + q);
  }

  lemma SuffixOfRest(s: string, i: nat, q: nat)
    requires i + q <= |s|
    ensures s[i..][q..] == s[i + q..]
  {
  }

  lemma BehindLastIs(s: string, c: char, p: nat)
    requires p <= |s| && (p > 0 ==> s[p - 1] == c) && forall k :: p <= k < |s| ==> s[k] != c
    ensures BehindLast(s, c) == p
  {
    BehindLastIsLast(s, c);
  }

  method IsLabel(domain: string, start: nat, dot: nat) returns (ok: bool)
    requires start <= dot <= |domain|
    ensures ok <==> Label(domain[start..dot])
  {
    var len := dot - start;
    ghost var text := domain[start..dot];
    if len == 0 || len > 63 {
      return false;
    }
    assert text[0] == domain[start] && text[len - 1] == domain[dot - 1];
    if domain[start] == '-' || domain[dot - 1] == '-' {
      return false;
    }
    for i := start to dot
      invariant forall k :: 0 <= k < i - start ==> LabelChar(text[k])
    {
      assert text[i - start] == domain[i];
      if !LabelChar(domain[i]) {
        assert !LabelChars(text);
        return false;
      }
    }
    assert LabelChars(text);
    return true;
  }

  method IsTopLabel(tld: string) returns (ok: bool)
    ensures ok <==> TopLabel(tld)
  {
    if |tld| < 2 {
      return false;
    }
    for i := 0 to |tld|
      invariant forall k :: 0 <= k < i ==> Letter(tld[k])
    {
      if !Letter(tld[i]) {
        return false;
      }
    }
    return true;
  }

  /** The labels from `start` on; none once `start` is past the end. */
  function LabelsFrom(domain: string, start: nat): seq<string>
    requires start <= |domain| + 1
  {
    if start <= |domain| then Fields(domain[start..], '.') else []
  }

  lemma LabelsStep(domain: string, start: nat)
    requires start <= |domain|
    ensures var dot := IndexFrom(domain, '.', start); var rest := LabelsFrom(domain, dot + 1);
      && |LabelsFrom(domain, start)| == 1 + |rest|
      && (Labels(LabelsFrom(domain, start)) <==> Label(domain[start..dot]) && Labels(rest))
  {
    var dot := IndexFrom(domain, '.', start);
    FieldsFrom(domain, '.', start, dot);
    if dot == |domain| {
      WholeSlice(domain, start);
    }
    LabelsOfFirst(domain[start..dot], LabelsFrom(domain, dot + 1));
  }

  lemma WholeSlice(s: string, i: nat)
    requires i <= |s|
    ensures s[i..|s|] == s[i..] && [s[i..]] + [] == [s[i..]]
  {
  }

  /** The number of labels the loop over a domain meets from `start` on. */
  function CountFrom(domain: string, start: nat): nat
    requires start <= |domain| + 1
    decreases |domain| + 1 - start
  {
    if start > |domain| then 0 else 1 + CountFrom(domain, IndexFrom(domain, '.', start) + 1)
  }

  /** Whether all of them pass. */
  predicate GoodFrom(domain: string, start: nat)
    requires start <= |domain| + 1
    decreases |domain| + 1 - start
  {
    start <= |domain| ==>
      var dot := IndexFrom(domain, '.', start);
      Label(domain[start..dot]) && GoodFrom(domain, dot + 1)
  }

  lemma {:induction false} LoopOverLabels(domain: string, start: nat)
    requires start <= |domain| + 1
    ensures CountFrom(domain, start) == |LabelsFrom(domain, start)|
    ensures GoodFrom(domain, start) <==> Labels(LabelsFrom(domain, start))
    decreases |domain| + 1 - start
  {
    if start <= |domain| {
      LabelsStep(domain, start);
      LoopOverLabels(domain, IndexFrom(domain, '.', start) + 1);
    }
  }

  lemma WholeLoop(domain: string)
    ensures CountFrom(domain, 0) == |Fields(domain, '.')|
    ensures GoodFrom(domain, 0) <==> Labels(Fields(domain, '.'))
  {
    assert domain[0..] == domain;
    LoopOverLabels(domain, 0);
  }

  lemma DomainByLoop(domain: string)
    ensures ValidDomain(domain) <==>
      && |domain| <= 255 && CountFrom(domain, 0) >= 2 && GoodFrom(domain, 0)
      && TopLabel(domain[BehindLast(domain, '.')..])
  {
    WholeLoop(domain);
    LastField(domain, '.');
  }

  method IsValidDomain(domain: string) returns (ok: bool)
    ensures ok <==> ValidDomain(domain)
  {
    DomainByLoop(domain);
    if domain == "" || |domain| > 255 {
      return false;
    }
    var start, labelCount := 0, 0;
    while start <= |domain|
      invariant start <= |domain| + 1
      invariant CountFrom(domain, 0) == labelCount + CountFrom(domain, start)
      invariant GoodFrom(domain, 0) <==> GoodFrom(domain, start)
      decreases |domain| + 1 - start
    {
      var dot := IndexFrom(domain, '.', start);
      var good := IsLabel(domain, start, dot);
      if !good {
        return false;
      }
      labelCount := labelCount + 1;
      start := dot + 1;
    }
    if labelCount < 2 {
      return false;
    }
    ok := IsTopLabel(domain[BehindLast(domain, '.')..]);
  }

  lemma PartsOf(s: string)
    ensures var at := IndexFrom(s, '@', 0);
      && (at == |s| ==> Fields(s, '@') == [s])
      && (at < |s| ==>
        && Fields(s, '@')[0] == s[..at]
        && (|Fields(s, '@')| == 2 <==> IndexFrom(s, '@', at + 1) == |s|)
        && (|Fields(s, '@')| == 2 ==> Fields(s, '@')[1] == s[at + 1..]))
  {
    var at := IndexFrom(s, '@', 0);
    if at < |s| {
      var next := IndexFrom(s, '@', at + 1);
      assert s[0..] == s;
      FieldsFrom(s, '@', 0, at);
      FieldsFrom(s, '@', at + 1, next);
    }
  }

  method IsValidEmailAddress(s: string) returns (ok: bool)
    ensures ok <==> ValidAddress(s)
  {
    PartsOf(s);
    if s == "" {
      return false;
    }
    var at := IndexFrom(s, '@', 0);
    EmptyPartsAreInvalid();
    if at == |s| || at == 0 || at == |s| - 1 {
      return false;
    }
    if IndexFrom(s, '@', at + 1) != |s| {
      return false;
    }
    ok := IsValidLocalPart(s[..at]);
    if ok {
      ok := IsValidDomain(s[at + 1..]);
    }
  }

  lemma EmptyPartsAreInvalid()
    ensures !ValidLocal("") && !ValidDomain("")
  {
    assert Fields("", '.')[0] == "";
  }

  // ---------- Fixed-size strings ----------

  const NUL: char := 0 as char

  function Nuls(n: nat): string {
    seq(n, _ => NUL)
  }

  /** A stored string: the characters before the first NUL. */
  function Text(data: string): string {
    data[..IndexFrom(data, NUL, 0)]
  }

  lemma TextOfStored(s: string, n: nat)
    requires n > 0
    ensures Text(s + Nuls(n)) == Text(s)
    ensures NUL !in s ==> Text(s) == s
    ensures NUL in s ==> |Text(s)| < |s|
  {
    IndexIsFirst(s, NUL, 0);
    var j := IndexFrom(s, NUL, 0);
    IndexIs(s + Nuls(n), NUL, 0, j);
  }

  lemma TextIsFree(data: string)
    ensures NUL !in Text(data)
  {
    IndexIsFirst(data, NUL, 0);
  }

  class CString {
    const data: array<char>

    constructor (max: nat)
      ensures fresh(data) && data.Length == max && data[..] == Nuls(max)
    {
      var chars := new char[max](_ => NUL);
      data := chars;
      new;
      assert data[..] == Nuls(max);
    }

    /** Fails on a string that leaves no room for the terminator. */
    method Copy(s: string) returns (ok: bool)
      modifies data
      ensures ok <==> |s| < data.Length
      ensures data[..] == if ok then s + Nuls(data.Length - |s|) else old(data[..])
    {
      if |s| >= data.Length {
        return false;
      }
      forall k | 0 <= k < data.Length {
        data[k] := NUL;
      }
      forall k | 0 <= k < |s| {
        data[k] := s[k];
      }
      data[|s|] := NUL;
      assert data[..] == s + Nuls(data.Length - |s|);
      return true;
    }
  }

  /** `CS(const S&)`; null when it throws. */
  method Stored(max: nat, s: string) returns (r: CString?)
    ensures r == null <==> max <= |s|
    ensures r != null ==> fresh(r) && fresh(r.data) && r.data.Length == max && Text(r.data[..]) == Text(s)
  {
    r := new CString(max);
    var ok := r.Copy(s);
    if !ok {
      return null;
    }
    TextOfStored(s, max - |s|);
  }

  /** A string followed by a stored one, or null when the result would not fit. The bound is the
      capacity of the right operand alone. */
  method Concatenation(lhs: string, rhs: CString) returns (r: CString?)
    ensures r == null <==> rhs.data.Length < |lhs| + |Text(rhs.data[..])| + 1
    ensures r != null ==> fresh(r) && fresh(r.data) && r.data.Length == rhs.data.Length + 1
    ensures r != null ==>
      r.data[..] == lhs + Text(rhs.data[..]) + Nuls(r.data.Length - |lhs| - |Text(rhs.data[..])|)
  {
    ghost var stored := rhs.data[..];
    var n := IndexFrom(rhs.data[..], NUL, 0);
    if rhs.data.Length < |lhs| + n + 1 {
      return null;
    }
    r := new CString(rhs.data.Length + 1);
    forall k | 0 <= k < |lhs| {
      r.data[k] := lhs[k];
    }
    forall k | 0 <= k < n {
      r.data[|lhs| + k] := rhs.data[k];
    }
    assert rhs.data[..] == stored;
    assert r.data[..] == lhs + stored[..n] + Nuls(r.data.Length - |lhs| - n);
  }

  // ---------- The record ----------

  datatype Parts = Parts(local: string, domain: string)

  const LOCAL_SIZE := 64
  const DOMAIN_SIZE := 255

  /** Equal up to case and accents; `fold` maps a character to its plain lower-case form. */
  predicate SameText(fold: char -> char, s: string, t: string) {
    |s| == |t| && forall k :: 0 <= k < |s| ==> fold(s[k]) == fold(t[k])
  }

  predicate IsNull(fold: char -> char, p: Parts) {
    SameText(fold, p.local, "null") && SameText(fold, p.domain, "null")
  }

  /** The record built from an address, or none when that throws. */
  function Constructed(fold: char -> char, s: string): Option<Parts> {
    var at := IndexFrom(s, '@', 0);
    if at == |s| || at >= LOCAL_SIZE || |s| - at - 1 >= DOMAIN_SIZE then None
    else
      var p := Parts(Text(s[..at]), Text(s[at + 1..]));
      if IsNull(fold, p) || (ValidLocal(p.local) && ValidDomain(p.domain)) then Some(p) else None
  }

  /** The record as text. It throws, and so ends the program, when the text is too long. */
  function Printed(p: Parts): Option<string> {
    if DOMAIN_SIZE < |p.local| + 1 + |p.domain| + 1 then None else Some(p.local + "@" + p.domain)
  }

  /** The checks of `initialize`. */
  method Accepts(fold: char -> char, p: Parts) returns (ok: bool)
    ensures ok <==> IsNull(fold, p) || (ValidLocal(p.local) && ValidDomain(p.domain))
  {
    ok := IsNull(fold, p);
    if !ok {
      ok := IsValidLocalPart(p.local);
      if ok {
        ok := IsValidDomain(p.domain);
      }
    }
  }

  class Email {
    const localPart: CString
    const domain: CString

    ghost predicate Valid()
      reads localPart.data, domain.data
    {
      localPart.data.Length == LOCAL_SIZE && domain.data.Length == DOMAIN_SIZE
    }

    ghost function Contents(): Parts
      reads localPart.data, domain.data
    {
      Parts(Text(localPart.data[..]), Text(domain.data[..]))
    }

    constructor (localPart: CString, domain: CString)
      ensures this.localPart == localPart && this.domain == domain
    {
      this.localPart, this.domain := localPart, domain;
    }

    /** `Email(const S&)` with `initialize`; null when it throws. */
    static method FromAddress(fold: char -> char, s: string) returns (e: Email?)
      ensures e == null <==> Constructed(fold, s).None?
      ensures e != null ==> fresh(e) && e.Valid() && Some(e.Contents()) == Constructed(fold, s)
    {
      var at := IndexFrom(s, '@', 0);
      if at == |s| {
        return null;
      }
      var lp := Stored(LOCAL_SIZE, s[..at]);
      var d := Stored(DOMAIN_SIZE, s[at + 1..]);
      if lp == null || d == null {
        return null;
      }
      var ok := Accepts(fold, Parts(Text(lp.data[..]), Text(d.data[..])));
      if !ok {
        return null;
      }
      e := new Email(lp, d);
    }

    /** `str`; none when the concatenation throws. */
    method Str() returns (text: Option<string>)
      requires Valid()
      ensures text == Printed(Contents())
    {
      var r := Concatenation(Text(localPart.data[..]) + "@", domain);
      if r == null {
        return None;
      }
      ghost var all := Text(localPart.data[..]) + "@" + Text(domain.data[..]);
      TextIsFree(localPart.data[..]);
      TextIsFree(domain.data[..]);
      TextOfStored(all, r.data.Length - |all|);
      text := Some(Text(r.data[..]));
    }
  }

  // ---------- Properties ----------

  /** Every character but the separator is in some field. */
  lemma {:induction false} InSomeField(s: string, c: char, x: char) returns (k: nat)
    requires x in s && x != c
    ensures k < |Fields(s, c)| && x in Fields(s, c)[k]
  {
    var j := IndexFrom(s, c, 0);
    if j == |s| || x in s[..j] {
      k := 0;
    } else {
      IndexIsFirst(s, c, 0);
      InRest(s, j, x);
      k := InSomeField(s[j + 1..], c, x);
      k := k + 1;
    }
  }

  lemma InRest(s: string, j: nat, x: char)
    requires j < |s| && x in s && x != s[j] && x !in s[..j]
    ensures x in s[j + 1..]
  {
    assert s == s[..j] + [s[j]] + s[j + 1..];
  }

  /** No valid part holds a character outside its grammar. */
  lemma ValidPartIsFree(s: string, c: char)
    requires ValidLocal(s) || ValidDomain(s)
    requires c == '@' || c == NUL
    ensures c !in s
  {
    if c in s {
      var k := InSomeField(s, '.', c);
    }
  }

  lemma TextIsAll(s: string)
    requires NUL !in s
    ensures Text(s) == s
  {
    TextOfStored(s, 1);
  }

  /** A valid address comes back from the record exactly when its local part is at most 63 and the
      whole at most 254 characters long; otherwise making the record or printing it throws. */
  lemma AddressRoundTrip(fold: char -> char, s: string)
    requires ValidAddress(s)
    ensures var r := Constructed(fold, s); var local := IndexFrom(s, '@', 0);
      && (r.Some? <==> local <= 63 && |s| - local - 1 <= 254)
      && (r.Some? ==> (Printed(r.value) == Some(s) <==> |s| <= 254) && (Printed(r.value).None? <==> |s| > 254))
  {
    var at := IndexFrom(s, '@', 0);
    PartsOf(s);
    ValidPartIsFree(s[..at], NUL);
    ValidPartIsFree(s[at + 1..], NUL);
    TextIsAll(s[..at]);
    TextIsAll(s[at + 1..]);
    AroundAt(s);
  }

  lemma AroundAt(s: string)
    ensures var at := IndexFrom(s, '@', 0); at < |s| ==> s == s[..at] + "@" + s[at + 1..]
  {
    IndexIsFirst(s, '@', 0);
  }

  /** Whatever the record was made from, its text is a valid address, unless it is the null record,
      and makes the same record again. */
  lemma PrintedIsValid(fold: char -> char, s: string)
    requires Constructed(fold, s).Some? && Printed(Constructed(fold, s).value).Some?
    requires !IsNull(fold, Constructed(fold, s).value)
    ensures var p := Constructed(fold, s).value; var text := Printed(p).value;
      ValidAddress(text) && Constructed(fold, text) == Some(p) && (text == s <==> NUL !in s)
  {
    var p := Constructed(fold, s).value;
    var text := Printed(p).value;
    ValidPartIsFree(p.local, '@');
    ValidPartIsFree(p.domain, '@');
    AddressOf(p.local, p.domain);
    StoredParts(s);
    TextIsFree(s[..IndexFrom(s, '@', 0)]);
    TextIsFree(s[IndexFrom(s, '@', 0) + 1..]);
    TextIsAll(p.local);
    TextIsAll(p.domain);
  }

  lemma AddressOf(local: string, domain: string)
    requires '@' !in local && '@' !in domain
    ensures var s := local + "@" + domain;
      && Fields(s, '@') == [local, domain]
      && IndexFrom(s, '@', 0) == |local| && s[..|local|] == local && s[|local| + 1..] == domain
  {
    var parts := [local, domain];
    assert parts[1..] == [domain];
    FieldsOfJoin(parts, '@');
    IndexAfter(local, '@', "@" + domain);
    ConcatAssociates(local, "@", domain);
  }

  /** Storing both parts loses nothing exactly when the address holds no NUL. */
  lemma StoredParts(s: string)
    ensures var at := IndexFrom(s, '@', 0);
      at < |s| ==> (Text(s[..at]) + "@" + Text(s[at + 1..]) == s <==> NUL !in s)
  {
    var at := IndexFrom(s, '@', 0);
    AroundAt(s);
    if at < |s| {
      TextOfStored(s[..at], 1);
      TextOfStored(s[at + 1..], 1);
      ElementOfParts(s[..at], '@', s[at + 1..], NUL);
      if NUL in s {
        assert |Text(s[..at]) + "@" + Text(s[at + 1..])| < |s|;
      }
    }
  }

  lemma ElementOfParts(a: string, c: char, b: string, x: char)
    ensures x in a + [c] + b <==> x in a || x == c || x in b
  {
  }

  /** An address without NUL makes a record exactly when both parts fit and it is valid or, up to case
      and accents, null@null; the record then holds the two parts as they are. */
  lemma ConstructedExactly(fold: char -> char, s: string)
    requires NUL !in s
    ensures var r := Constructed(fold, s); var at := IndexFrom(s, '@', 0);
      && (r.Some? <==>
           && at < |s| && at <= 63 && |s| - at - 1 <= 254
           && (ValidAddress(s) || (SameText(fold, s[..at], "null") && SameText(fold, s[at + 1..], "null"))))
      && (r.Some? ==> r.value == Parts(s[..at], s[at + 1..]))
  {
    var at := IndexFrom(s, '@', 0);
    if at < |s| {
      TextIsAll(s[..at]);
      TextIsAll(s[at + 1..]);
      OneAt(s);
    }
  }

  lemma NoneFrom(s: string, c: char, i: nat)
    requires i <= |s| && c !in s[i..]
    ensures IndexFrom(s, c, i) == |s|
  {
    assert forall k :: i <= k < |s| ==> s[k] == s[i..][k - i];
    IndexIs(s, c, i, |s|);
  }

  /** Two valid parts around the first @ are a valid address: the domain holds no other one. */
  lemma OneAt(s: string)
    requires IndexFrom(s, '@', 0) < |s|
    ensures var at := IndexFrom(s, '@', 0);
      ValidAddress(s) <==> ValidLocal(s[..at]) && ValidDomain(s[at + 1..])
  {
    var at := IndexFrom(s, '@', 0);
    PartsOf(s);
    if IndexFrom(s, '@', at + 1) == |s| {
      assert Fields(s, '@')[0] == s[..at] && Fields(s, '@')[1] == s[at + 1..];
    } else {
      NotADomain(s, at + 1);
    }
  }

  lemma NotADomain(s: string, i: nat)
    requires i <= |s| && IndexFrom(s, '@', i) < |s|
    ensures !ValidDomain(s[i..])
  {
    if ValidDomain(s[i..]) {
      ValidPartIsFree(s[i..], '@');
      NoneFrom(s, '@', i);
    }
  }

  // ---------- Limits ----------

  /** The characters of the grammar by their codes. */
  lemma CharacterCodes(c: char)
    ensures Letter(c) <==> 65 <= c as int <= 90 || 97 <= c as int <= 122
    ensures AtomChar(c) <==> Letter(c) || 48 <= c as int <= 57 || c as int == 95 || c as int == 45 || c as int == 43
    ensures c == NUL <==> c as int == 0
    ensures LabelChar(c) <==> Letter(c) || 48 <= c as int <= 57 || c as int == 45
  {
  }

  /** For a text of n letters: the lengths that the parts of an address may have. */
  lemma LengthLimits(n: nat)
    ensures var s: string := seq(n, _ => 'a');
      && (ValidLocal(s) <==> 1 <= n <= 64) && (Label(s) <==> 1 <= n <= 63) && (TopLabel(s) <==> n >= 2)
  {
    var s: string := seq(n, _ => 'a');
    IndexIs(s, '.', 0, n);
    assert Fields(s, '.') == [s] + [];
    AtomsOfFirst(s, []);
    assert n > 0 ==> s[0] == 'a' && s[n - 1] == 'a';
  }

  /** Labels of the given lengths, joined by dots; the last one is a top label. */
  function Letters(lengths: seq<nat>): string
    requires lengths != []
  {
    var first: string := seq(lengths[0], _ => 'a');
    if |lengths| == 1 then first else first + ("." + Letters(lengths[1..]))
  }

  lemma {:induction false} LettersAreLabels(lengths: seq<nat>)
    requires lengths != [] && (forall i :: 0 <= i < |lengths| ==> 2 <= lengths[i] <= 63)
    ensures var fields := Fields(Letters(lengths), '.');
      |fields| == |lengths| && Labels(fields) && TopLabel(Last(fields))
  {
    var first: string := seq(lengths[0], _ => 'a');
    LettersAreLabel(lengths[0]);
    if |lengths| == 1 {
      IndexIs(first, '.', 0, |first|);
      assert Fields(first, '.') == [first];
    } else {
      LettersAreLabels(lengths[1..]);
      LabelInFront(first, Letters(lengths[1..]));
    }
  }

  /** Five labels in 255 characters are a domain, and in 256 they are not. */
  lemma DomainLimit()
    ensures |Letters([63, 63, 63, 60, 2])| == 255 && ValidDomain(Letters([63, 63, 63, 60, 2]))
    ensures |Letters([63, 63, 63, 61, 2])| == 256 && DomainLabels(Fields(Letters([63, 63, 63, 61, 2]), '.'))
    ensures !ValidDomain(Letters([63, 63, 63, 61, 2]))
  {
    LettersAreLabels([63, 63, 63, 60, 2]);
    LettersAreLabels([63, 63, 63, 61, 2]);
    LettersLength([2]);
    LettersLength([60, 2]);
    LettersLength([61, 2]);
    LettersLength([63, 60, 2]);
    LettersLength([63, 61, 2]);
    LettersLength([63, 63, 60, 2]);
    LettersLength([63, 63, 61, 2]);
    LettersLength([63, 63, 63, 60, 2]);
    LettersLength([63, 63, 63, 61, 2]);
  }

  lemma LettersLength(lengths: seq<nat>)
    requires lengths != []
    ensures |Letters(lengths)| ==
      lengths[0] + if |lengths| == 1 then 0 else 1 + |Letters(lengths[1..])|
  {
  }

  /** The longest local part the validator accepts cannot be stored. */
  lemma LongestLocalIsRefused(fold: char -> char)
    ensures var s := seq(64, _ => 'a') + "@a.bc"; ValidAddress(s) && Constructed(fold, s).None?
  {
    var local: string := seq(64, _ => 'a');
    var s := local + "@a.bc";
    IndexAfter(local, '@', "@a.bc");
    IndexAfter(local, '.', "");
    assert local + "" == local;
    FieldsOfJoin([local, "a.bc"], '@');
    FieldsOfJoin(["a", "bc"], '.');
    assert Join(["a", "bc"][1..], '.') == "bc";
    assert Join([local, "a.bc"][1..], '@') == "a.bc";
    assert s == local + "@" + "a.bc";
    assert Fields(local, '.') == [local];
  }

  lemma LettersAreLabel(n: nat)
    requires 1 <= n <= 63
    ensures var s: string := seq(n, _ => 'a'); Label(s) && '.' !in s && '@' !in s
  {
  }

  /** A label in front of a domain is its first label. */
  lemma LabelInFront(first: string, rest: string)
    requires Label(first) && '.' !in first
    ensures Fields(first + ("." + rest), '.') == [first] + Fields(rest, '.')
    ensures Labels(Fields(rest, '.')) ==> Labels(Fields(first + ("." + rest), '.'))
    ensures Last(Fields(first + ("." + rest), '.')) == Last(Fields(rest, '.'))
  {
    var s := first + ("." + rest);
    IndexAfter(first, '.', "." + rest);
    assert s[..|first|] == first && s[|first| + 1..] == rest;
    FieldsStep(s, '.', first, rest);
    LabelsOfFirst(first, Fields(rest, '.'));
  }

  /** A valid address that can be stored but not printed. */
  lemma LongAddressIsNotPrinted(fold: char -> char) returns (s: string)
    ensures ValidAddress(s) && Constructed(fold, s).Some? && Printed(Constructed(fold, s).value).None?
  {
    var local: string := seq(63, _ => 'a');
    var lengths := [63, 63, 63, 2];
    var domain := Letters(lengths);
    LettersAreLabels(lengths);
    LettersLength([2]);
    LettersLength([63, 2]);
    LettersLength([63, 63, 2]);
    LettersLength(lengths);
    ValidPartIsFree(domain, '@');
    LettersAreLabel(63);
    s := local + "@" + domain;
    AddressOf(local, domain);
    FieldsOfJoin([local], '.');
    AddressRoundTrip(fold, s);
  }
}
