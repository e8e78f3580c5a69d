/** The bytes of a written command, offset by offset: class information is copied as the structure of
    `cpp/src/class_info.hpp` lies in memory, numbers least significant byte first. */
module CommandLayouts {
  import opened Bytes
  import opened Arithmetic
  import opened CommandTrees
  import opened Sequences

  // ---------- Fields ----------

  /** A field of 100 bytes: the name and then zeros. */
  ghost predicate NameAt(n: Name, b: seq<byte>, at: nat) {
    at + 100 <= |b| && |n| <= 100 && forall k :: 0 <= k < 100 ==> b[at + k] == if k < |n| then n[k] else 0
  }

  /** A signed number in two bytes. */
  ghost predicate ShortAt(n: int, b: seq<byte>, at: nat) {
    at + 2 <= |b| && b[at] as int + 0x100 * b[at + 1] as int == if n < 0 then n + 0x1_0000 else n
  }

  /** A number of four bytes without a sign. */
  ghost function Four(b: seq<byte>, at: nat): int
    requires at + 4 <= |b|
  {
    b[at] as int + 0x100 * b[at + 1] as int + 0x1_0000 * b[at + 2] as int + 0x100_0000 * b[at + 3] as int
  }

  /** A signed number in eight bytes. */
  ghost predicate LongAt(n: int, b: seq<byte>, at: nat) {
    && at + 8 <= |b|
    && Four(b, at) + 0x1_0000_0000 * Four(b, at + 4) == if n < 0 then n + 0x1_0000_0000_0000_0000 else n
  }

  ghost predicate InfoAt(info: ClassInfo, b: seq<byte>, at: nat) {
    && NameAt(info.namespace, b, at)
    && NameAt(info.name, b, at + 100)
    && ShortAt(info.publicVersion as int, b, at + 200)
    && ShortAt(info.protectedVersion as int, b, at + 202)
    && ShortAt(info.privateVersion as int, b, at + 204)
  }

  // ---------- Commands ----------

  /** The number of bytes a command writes. */
  function Size(c: Command): nat
    decreases c, 0
  {
    if c.Composite? then 635 + SizeOfAll(c.children) else 627
  }

  function SizeOfAll(cs: seq<Command>): nat
    decreases cs
  {
    if cs == [] then 0 else Size(cs[0]) + SizeOfAll(cs[1..])
  }

  /** Class information, the object part with the id, the command part with the mark, and for a
      composite the number of its children and the children one after the other. */
  ghost predicate CommandAt(c: Command, b: seq<byte>, at: nat)
    decreases c, 0
  {
    && !c.Missing?
    && InfoAt(c.Info(), b, at)
    && InfoAt(OBJECT_INFO, b, at + 206) && LongAt(c.id as int, b, at + 412)
    && InfoAt(COMMAND_INFO, b, at + 420) && at + 627 <= |b| && b[at + 626] == c.ok
    && (c.Composite? ==> LongAt(|c.children|, b, at + 627) && AllAt(c.children, b, at + 635))
  }

  ghost predicate AllAt(cs: seq<Command>, b: seq<byte>, at: nat)
    decreases cs
  {
    at <= |b| && (cs != [] ==> CommandAt(cs[0], b, at) && AllAt(cs[1..], b, at + Size(cs[0])))
  }

  // ---------- What is written is so laid out ----------

  /** The bytes from `at` on begin with `part`. */
  ghost predicate Holds(b: seq<byte>, at: nat, part: seq<byte>) {
    at + |part| <= |b| && b[at..at + |part|] == part
  }

  lemma HoldsConcat(b: seq<byte>, at: nat, x: seq<byte>, y: seq<byte>)
    ensures Holds(b, at, x + y) <==> Holds(b, at, x) && Holds(b, at + |x|, y)
  {
    if at + |x| + |y| <= |b| {
      var whole := b[at..at + |x| + |y|];
      assert whole[..|x|] == b[at..at + |x|] && whole[|x|..] == b[at + |x|..at + |x| + |y|];
      assert whole == whole[..|x|] + whole[|x|..];
      SplitConcat(x, y);
    }
  }

  lemma NameHolds(n: Name, b: seq<byte>, at: nat)
    requires ValidName(n)
    ensures NameAt(n, b, at) <==> Holds(b, at, Padded(n))
  {
    var p := Padded(n);
    assert forall k :: 0 <= k < 100 ==> p[k] == if k < |n| then n[k] else 0;
    if at + 100 <= |b| {
      var s := b[at..at + 100];
      assert forall k :: 0 <= k < 100 ==> s[k] == b[at + k];
    }
  }

  /** A field is the digits of a number exactly when it has the number's value. */
  lemma DigitsHold(n: nat, w: nat, s: seq<byte>)
    requires |s| == w && n < Power(w)
    ensures s == Digits(n, w) <==> Value(s) == n
  {
    DigitsOfValue(s);
    SmallValue(n, w);
  }

  lemma ValueOfTwo(s: seq<byte>)
    requires |s| >= 2
    ensures Value(s) == s[0] as int + 0x100 * s[1] as int + 0x1_0000 * Value(s[2..])
  {
    assert s[1..][1..] == s[2..];
  }

  lemma ValueOfFour(s: seq<byte>)
    requires |s| >= 4
    ensures Value(s) == Four(s, 0) + 0x1_0000_0000 * Value(s[4..])
  {
    ValueOfTwo(s);
    ValueOfTwo(s[2..]);
    assert s[2..][2..] == s[4..];
  }

  lemma ShortHolds(n: Version, b: seq<byte>, at: nat)
    ensures ShortAt(n as int, b, at) <==> Holds(b, at, VersionBytes(n))
  {
    assert Power(2) == 0x1_0000 by { assert Power(1) == 256; }
    if at + 2 <= |b| {
      var s := b[at..at + 2];
      ValueOfTwo(s);
      DigitsHold(Unsigned(n as int, 2), 2, s);
    }
  }

  lemma LongHolds(n: int, b: seq<byte>, at: nat)
    requires -0x8000_0000_0000_0000 <= n < 0x8000_0000_0000_0000
    ensures Power(8) == 0x1_0000_0000_0000_0000
    ensures LongAt(n, b, at) <==> Holds(b, at, SignedDigits(n, 8))
  {
    IdFits(0);
    if at + 8 <= |b| {
      var s := b[at..at + 8];
      ValueOfFour(s);
      ValueOfFour(s[4..]);
      assert Four(s, 0) == Four(b, at) && Four(s[4..], 0) == Four(b, at + 4) && s[4..][4..] == [];
      DigitsHold(Unsigned(n, 8), 8, s);
    }
  }

  lemma InfoHolds(info: ClassInfo, b: seq<byte>, at: nat)
    requires info.Valid()
    ensures InfoAt(info, b, at) <==> Holds(b, at, info.Bytes())
  {
    var x, y := Padded(info.namespace), Padded(info.name);
    var u, v, w := VersionBytes(info.publicVersion), VersionBytes(info.protectedVersion),
      VersionBytes(info.privateVersion);
    HoldsConcat(b, at, x + y + u + v, w);
    HoldsConcat(b, at, x + y + u, v);
    HoldsConcat(b, at, x + y, u);
    HoldsConcat(b, at, x, y);
    NameHolds(info.namespace, b, at);
    NameHolds(info.name, b, at + 100);
    ShortHolds(info.publicVersion, b, at + 200);
    ShortHolds(info.protectedVersion, b, at + 202);
    ShortHolds(info.privateVersion, b, at + 204);
  }

  ghost predicate BaseAt(id: Id, ok: Bool, b: seq<byte>, at: nat) {
    && InfoAt(OBJECT_INFO, b, at) && LongAt(id as int, b, at + 206)
    && InfoAt(COMMAND_INFO, b, at + 214) && at + 421 <= |b| && b[at + 420] == ok
  }

  lemma BaseHolds(id: Id, ok: Bool, b: seq<byte>, at: nat)
    ensures |EncodeBase(id, ok)| == 421
    ensures BaseAt(id, ok, b, at) <==> Holds(b, at, EncodeBase(id, ok))
  {
    LibraryInfosValid();
    var x, y, z := OBJECT_INFO.Bytes(), IdBytes(id), COMMAND_INFO.Bytes();
    HoldsConcat(b, at, x, y + (z + [ok]));
    HoldsConcat(b, at + 206, y, z + [ok]);
    HoldsConcat(b, at + 214, z, [ok]);
    InfoHolds(OBJECT_INFO, b, at);
    LongHolds(id as int, b, at + 206);
    InfoHolds(COMMAND_INFO, b, at + 214);
    if at + 421 <= |b| {
      assert b[at + 420..at + 421] == [b[at + 420]];
    }
  }

  /** The bytes at an offset are the encoding of a command if and only if they are laid out so, which
      leaves no byte open. */
  lemma {:induction false} EncodingIsLayout(c: Command, b: seq<byte>, at: nat)
    requires Encodable(c)
    ensures |Encode(c)| == Size(c)
    ensures CommandAt(c, b, at) <==> Holds(b, at, Encode(c))
    decreases c, 0
  {
    LibraryInfosValid();
    BaseHolds(c.id, c.ok, b, at + 206);
    InfoHolds(c.Info(), b, at);
    HoldsConcat(b, at, c.Info().Bytes(), EncodeBody(c));
    if c.Composite? {
      var count := Digits(|c.children|, COUNT_SIZE);
      HoldsConcat(b, at + 206, EncodeBase(c.id, c.ok), count + EncodeAll(c.children));
      HoldsConcat(b, at + 627, count, EncodeAll(c.children));
      LongHolds(|c.children|, b, at + 627);
      EncodingsAreLayouts(c.children, b, at + 635);
    }
  }

  lemma {:induction false} EncodingsAreLayouts(cs: seq<Command>, b: seq<byte>, at: nat)
    requires forall k :: 0 <= k < |cs| ==> Encodable(cs[k])
    ensures |EncodeAll(cs)| == SizeOfAll(cs)
    ensures AllAt(cs, b, at) <==> Holds(b, at, EncodeAll(cs))
    decreases cs
  {
    if cs != [] {
      EncodingIsLayout(cs[0], b, at);
      EncodingsAreLayouts(cs[1..], b, at + Size(cs[0]));
      FirstAt(cs, b, at, Encode(cs[0]), EncodeAll(cs[1..]));
    } else {
      NothingAt(b, at);
    }
  }

  lemma NothingAt(b: seq<byte>, at: nat)
    ensures AllAt([], b, at) <==> Holds(b, at, [])
  {
    if at <= |b| {
      assert b[at..at] == [];
    }
  }

  lemma FirstAt(cs: seq<Command>, b: seq<byte>, at: nat, first: seq<byte>, others: seq<byte>)
    requires cs != [] && |first| == Size(cs[0])
    requires CommandAt(cs[0], b, at) <==> Holds(b, at, first)
    requires AllAt(cs[1..], b, at + |first|) <==> Holds(b, at + |first|, others)
    ensures AllAt(cs, b, at) <==> Holds(b, at, first + others)
  {
    HoldsConcat(b, at, first, others);
  }

  /** What has been appended is laid out where it was appended. */
  lemma AppendedLayout(c: Command, before: seq<byte>)
    requires Encodable(c)
    ensures CommandAt(c, before + Encode(c), |before|) && |Encode(c)| == Size(c)
  {
    SplitConcat(before, Encode(c));
    assert (before + Encode(c))[|before|..|before| + |Encode(c)|] == Encode(c);
    EncodingIsLayout(c, before + Encode(c), |before|);
  }

  lemma AppendedBase(id: Id, ok: Bool, before: seq<byte>)
    ensures BaseAt(id, ok, before + EncodeBase(id, ok), |before|) && |EncodeBase(id, ok)| == 421
  {
    var b := before + EncodeBase(id, ok);
    BaseHolds(id, ok, b, |before|);
    assert b[|before|..|before| + |EncodeBase(id, ok)|] == EncodeBase(id, ok);
  }

  // ---------- Reading by offset ----------

  lemma WordRead(b: seq<byte>, at: nat)
    requires at + 8 <= |b|
    ensures LongAt(IdOf(b[at..at + 8]) as int, b, at)
  {
    var s := b[at..at + 8];
    IdFits(0);
    ValueBound(s);
    ValueOfFour(s);
    ValueOfFour(s[4..]);
    assert Four(s, 0) == Four(b, at) && Four(s[4..], 0) == Four(b, at + 4) && s[4..][4..] == [];
  }

  lemma ObjectByOffset(id: Id, b: seq<byte>)
    requires OBJECT_INFO.Valid()
    ensures var r := ReadTagged(OBJECT_INFO.Bytes(), IdBytes(id), b);
      var p := if |b| < 206 then 0 else if |b| < 214 || !InfoAt(OBJECT_INFO, b, 0) then 206 else 214;
      r.rest == b[p..] && if p == 214 then LongAt(IdOf(r.value) as int, b, 206) else IdOf(r.value) == id
  {
    InfoHolds(OBJECT_INFO, b, 0);
    assert b[0..] == b;
    TaggedByOffset(OBJECT_INFO.Bytes(), IdBytes(id), b, 0);
    IdReadBack(id);
    if |b| >= 214 {
      WordRead(b, 206);
    }
  }

  /** What reading the base part makes of any bytes: where its two pieces of class information are
      looked for, which fields are taken over, and which bytes are left. */
  lemma ReadBaseByOffset(id: Id, ok: Bool, b: seq<byte>)
    ensures var (id', ok', rest) := ReadBase(id, ok, b);
      var p := if |b| < 206 then 0 else if |b| < 214 || !InfoAt(OBJECT_INFO, b, 0) then 206 else 214;
      && (if p == 214 then LongAt(id' as int, b, 206) else id' == id)
      && if |b| < p + 206 then ok' == ok && rest == b[p..]
         else if |b| < p + 207 || !InfoAt(COMMAND_INFO, b, p) then ok' == ok && rest == b[p + 206..]
         else ok' == b[p + 206] && rest == b[p + 207..]
  {
    LibraryInfosValid();
    ObjectByOffset(id, b);
    var p := if |b| < 206 then 0 else if |b| < 214 || !InfoAt(OBJECT_INFO, b, 0) then 206 else 214;
    InfoHolds(COMMAND_INFO, b, p);
    TaggedByOffset(COMMAND_INFO.Bytes(), [ok], b, p);
  }

  lemma IdReadBack(id: Id)
    ensures IdOf(IdBytes(id)) == id
  {
    IdFits(id);
    SignedRoundTrip(id as int, ID_SIZE);
  }

  lemma TaggedByOffset(tag: seq<byte>, current: seq<byte>, b: seq<byte>, p: nat)
    requires |tag| == INFO_SIZE && p <= |b|
    ensures var r := ReadTagged(tag, current, b[p..]); var q := p + 206 + |current|;
      if |b| < p + 206 then r == Field(current, b[p..])
      else if |b| < q || !Holds(b, p, tag) then r == Field(current, b[p + 206..])
      else r == Field(b[p + 206..q], b[q..])
  {
    if p + 206 <= |b| {
      assert b[p..][..206] == b[p..p + 206] && b[p..][206..] == b[p + 206..];
    }
    if p + 206 + |current| <= |b| {
      var rest := b[p + 206..];
      assert rest[..|current|] == b[p + 206..p + 206 + |current|];
      assert rest[|current|..] == b[p + 206 + |current|..];
    }
  }

  /** A child count beyond the ten slots of the array is an overrun, whatever follows. */
  lemma CountBeyondArray(reg: Registry, c: Command, base: seq<byte>, count: seq<byte>, rest: seq<byte>)
    requires c.Composite? && c.children == [] && BaseAt(c.id, c.ok, base, 0) && |base| == 421
    requires |count| == 8 && Four(count, 0) + 0x1_0000_0000 * Four(count, 4) > 10
    ensures ReadBody(reg, c, base + (count + rest)).Overrun?
  {
    BaseHolds(c.id, c.ok, base, 0);
    assert base[0..421] == base;
    ReadEncodedBase(c.id, c.ok, c.id, c.ok, count + rest);
    SplitConcat(count, rest);
    ValueOfFour(count);
    ValueOfFour(count[4..]);
    assert count[4..][4..] == [];
  }

  // ---------- The classes of the library ----------

  lemma AsciiIs(s: string, b: seq<byte>)
    requires |s| == |b| && forall k :: 0 <= k < |s| ==> s[k] as int == b[k] as int
    ensures Ascii(s) == b
  {
  }

  /** The names as they stand in the bytes, and the versions. */
  lemma LibraryClasses()
    ensures CPPLIB ==
      [112, 101, 110, 115, 97, 114, 95, 100, 105, 103, 105, 116, 97, 108, 58, 58, 99, 112, 112, 108, 105, 98]
    ensures OBJECT_INFO == ClassInfo(CPPLIB, [79, 98, 106, 101, 99, 116], 1, 1, 1)
    ensures COMMAND_INFO == ClassInfo(CPPLIB, [67, 111, 109, 109, 97, 110, 100], 2, 1, 1)
    ensures NULL_COMMAND_INFO == ClassInfo(CPPLIB, [78, 117, 108, 108, 67, 111, 109, 109, 97, 110, 100], 2, 1, 1)
    ensures COMPOSITE_INFO == ClassInfo(
      CPPLIB, [67, 111, 109, 112, 111, 115, 105, 116, 101, 67, 111, 109, 109, 97, 110, 100], 2, 1, 1)
  {
    AsciiIs("pensar_digital::cpplib",
      [112, 101, 110, 115, 97, 114, 95, 100, 105, 103, 105, 116, 97, 108, 58, 58, 99, 112, 112, 108, 105, 98]);
    AsciiIs("Object", [79, 98, 106, 101, 99, 116]);
    AsciiIs("Command", [67, 111, 109, 109, 97, 110, 100]);
    AsciiIs("NullCommand", [78, 117, 108, 108, 67, 111, 109, 109, 97, 110, 100]);
    AsciiIs("CompositeCommand", [67, 111, 109, 112, 111, 115, 105, 116, 101, 67, 111, 109, 109, 97, 110, 100]);
  }

  /** Namespace and name with two colons between them. */
  lemma FullNameIs(info: ClassInfo)
    ensures info.FullName() == info.namespace + [58, 58] + info.name
  {
    AsciiIs("::", [58, 58]);
  }
}
