/** Commands as values: what `cpp/src/command.hpp` writes, reads back, runs and undoes. The objects
    of Commands.dfy are specified by the functions of this module. */
module CommandTrees {
  import opened Bytes
  import opened Sequences

  // ---------- Class information ----------

  /** A zero-terminated name is kept in a field of this size. */
  const IDENTIFIER_SIZE := 100
  const VERSION_SIZE := 2
  const INFO_SIZE := 2 * IDENTIFIER_SIZE + 3 * VERSION_SIZE
  const ID_SIZE := 8
  const COUNT_SIZE := 8
  const MAX_COMMANDS := 10

  type Name = seq<byte>

  newtype Version = x: int | -0x8000 <= x < 0x8000
  newtype Id = x: int | -0x8000_0000_0000_0000 <= x < 0x8000_0000_0000_0000

  const NULL_ID: Id := -1

  function Ascii(s: string): (b: seq<byte>)
    ensures |b| == |s|
  {
    seq(|s|, k requires 0 <= k < |s| => (s[k] as int % 256) as byte)
  }

  /** The characters before the terminating zero, or all of them. */
  function CString(b: seq<byte>): Name {
    if b == [] || b[0] == 0 then [] else [b[0]] + CString(b[1..])
  }

  predicate ValidName(n: Name) {
    |n| < IDENTIFIER_SIZE && 0 !in n
  }

  datatype ClassInfo = ClassInfo(
    namespace: Name, name: Name, publicVersion: Version, protectedVersion: Version, privateVersion: Version)
  {
    predicate Valid() {
      ValidName(namespace) && ValidName(name)
    }

    function Bytes(): (b: seq<byte>)
      requires Valid()
      ensures |b| == INFO_SIZE
    {
      Padded(namespace) + Padded(name) +
      VersionBytes(publicVersion) + VersionBytes(protectedVersion) + VersionBytes(privateVersion)
    }

    function FullName(): Name {
      namespace + Ascii("::") + name
    }
  }

  function Padded(n: Name): (b: seq<byte>)
    requires ValidName(n)
    ensures |b| == IDENTIFIER_SIZE
  {
    n + seq(IDENTIFIER_SIZE - |n|, _ => 0)
  }

  function VersionBytes(v: Version): (b: seq<byte>)
    ensures |b| == VERSION_SIZE
  {
    assert Power(2) == 65536 by { assert Power(1) == 256; }
    SignedDigits(v as int, VERSION_SIZE)
  }

  /** The full class name a block of class-information bytes shows to the registry. */
  function FullNameOf(b: seq<byte>): Name
    requires |b| == INFO_SIZE
  {
    CString(b[..IDENTIFIER_SIZE]) + Ascii("::") + CString(b[IDENTIFIER_SIZE..2 * IDENTIFIER_SIZE])
  }

  const CPPLIB: Name := Ascii("pensar_digital::cpplib")
  const OBJECT_INFO := ClassInfo(CPPLIB, Ascii("Object"), 1, 1, 1)
  const COMMAND_INFO := ClassInfo(CPPLIB, Ascii("Command"), 2, 1, 1)
  const NULL_COMMAND_INFO := ClassInfo(CPPLIB, Ascii("NullCommand"), 2, 1, 1)
  const COMPOSITE_INFO := ClassInfo(CPPLIB, Ascii("CompositeCommand"), 2, 1, 1)

  lemma LibraryInfosValid()
    ensures OBJECT_INFO.Valid() && COMMAND_INFO.Valid() && NULL_COMMAND_INFO.Valid() && COMPOSITE_INFO.Valid()
    ensures NULL_COMMAND_INFO != COMPOSITE_INFO
  {
    assert |Ascii("NullCommand")| != |Ascii("CompositeCommand")|;
  }

  // ---------- Commands ----------

  /** A three-state flag kept in one signed byte: -1 unknown, 0 false, 1 true. */
  type Bool = byte
  const UNKNOWN: Bool := 255
  const TRUE: Bool := 1

  /** A tree of commands. `Missing` is a slot of a composite that holds no command. */
  datatype Command =
    | Missing
    | Leaf(info: ClassInfo, id: Id, ok: Bool)
    | Composite(id: Id, ok: Bool, children: seq<Command>)
  {
    function Info(): ClassInfo
      requires !Missing?
    {
      if Leaf? then info else COMPOSITE_INFO
    }
  }

  /** Every slot up to the index holds a command, at every depth. */
  predicate Complete(c: Command) {
    !c.Missing? && (c.Composite? ==> forall k :: 0 <= k < |c.children| ==> Complete(c.children[k]))
  }

  /** A complete tree with no overfull composite whose leaves are of proper classes of their own. */
  predicate Encodable(c: Command) {
    match c
    case Missing => false
    case Leaf(info, _, _) => info.Valid() && info != COMPOSITE_INFO
    case Composite(_, _, children) =>
      |children| <= MAX_COMMANDS && forall k :: 0 <= k < |children| ==> Encodable(children[k])
  }

  // ---------- Writing ----------

  function IdBytes(id: Id): (b: seq<byte>)
    ensures |b| == ID_SIZE
  {
    IdFits(id);
    SignedDigits(id as int, ID_SIZE)
  }

  lemma IdFits(id: Id)
    ensures Power(ID_SIZE) == 0x1_0000_0000_0000_0000
  {
    assert Power(2) == 0x1_0000 && Power(4) == 0x1_0000_0000 && Power(6) == 0x1_0000_0000_0000;
  }

  /** `Object::write` followed by the rest of `Command::write`. */
  function EncodeBase(id: Id, ok: Bool): seq<byte> {
    LibraryInfosValid();
    OBJECT_INFO.Bytes() + (IdBytes(id) + (COMMAND_INFO.Bytes() + [ok]))
  }

  /** What a command writes after its own class information. */
  function EncodeBody(c: Command): seq<byte>
    requires Encodable(c)
    decreases c, 0
  {
    match c
    case Leaf(_, id, ok) => EncodeBase(id, ok)
    case Composite(id, ok, children) =>
      EncodeBase(id, ok) + (Digits(|children|, COUNT_SIZE) + EncodeAll(children))
  }

  function Encode(c: Command): seq<byte>
    requires Encodable(c)
    decreases c, 1
  {
    LibraryInfosValid();
    c.Info().Bytes() + EncodeBody(c)
  }

  function EncodeAll(cs: seq<Command>): seq<byte>
    requires forall k :: 0 <= k < |cs| ==> Encodable(cs[k])
    decreases cs
  {
    if cs == [] then [] else Encode(cs[0]) + EncodeAll(cs[1..])
  }

  // ---------- Reading ----------

  /** The command registry: full class name to the class whose objects the creator makes. The id of
      a new command comes from a generator; `ids` gives it by the number of bytes left in the buffer
      when the creator is called, so any ids may be drawn. */
  datatype Registry = Registry(classes: map<Name, ClassInfo>, ids: nat -> Id)

  /** `CommandRegistry::create` on a block of class-information bytes; `Missing` is its null. */
  function Create(reg: Registry, info: seq<byte>, left: nat): Command
    requires |info| == INFO_SIZE
  {
    if FullNameOf(info) in reg.classes then Fresh(reg.classes[FullNameOf(info)], reg.ids(left)) else Missing
  }

  /** A newly made command of the given class. */
  function Fresh(info: ClassInfo, id: Id): (c: Command)
    ensures !c.Missing? && c.Info() == info
  {
    if info == COMPOSITE_INFO then Composite(id, UNKNOWN, []) else Leaf(info, id, UNKNOWN)
  }

  datatype Field = Field(value: seq<byte>, rest: seq<byte>)

  /** Reads class information, checks it against `tag` and, if it agrees, reads a field of `current`'s
      size. A block too short for either leaves the field and the bytes not reached alone. */
  function ReadTagged(tag: seq<byte>, current: seq<byte>, b: seq<byte>): (r: Field)
    requires |tag| == INFO_SIZE
    ensures |r.value| == |current| && |r.rest| <= |b|
  {
    if |b| < INFO_SIZE then Field(current, b)
    else
      var b' := b[INFO_SIZE..];
      if b[..INFO_SIZE] != tag || |b'| < |current| then Field(current, b')
      else Field(b'[..|current|], b'[|current|..])
  }

  /** `Command::read`, which reads the object part first. */
  function ReadBase(id: Id, ok: Bool, b: seq<byte>): (r: (Id, Bool, seq<byte>))
    ensures |r.2| <= |b|
  {
    LibraryInfosValid();
    var base := ReadTagged(OBJECT_INFO.Bytes(), IdBytes(id), b);
    var command := ReadTagged(COMMAND_INFO.Bytes(), [ok], base.rest);
    (IdOf(base.value), command.value[0], command.rest)
  }

  function IdOf(b: seq<byte>): Id
    requires |b| == ID_SIZE
  {
    IdFits(0);
    ValueBound(b);
    SignedValue(b) as Id
  }

  /** The outcome of reading: a command and the bytes left, or a child count beyond the capacity of
      the command array, after which the source writes out of bounds. */
  datatype Reading<+A> = Done(value: A, rest: seq<byte>) | Overrun

  /** The virtual `read` of a newly made command; its class information is already consumed. */
  function ReadBody(reg: Registry, c: Command, b: seq<byte>): (r: Reading<Command>)
    requires !c.Missing? && (c.Composite? ==> c.children == [])
    ensures r.Done? ==> |r.rest| <= |b| && !r.value.Missing? && r.value.Info() == c.Info()
    decreases |b|, 2, 0
  {
    var (id, ok, b') := ReadBase(c.id, c.ok, b);
    match c
    case Leaf(info, _, _) => Done(Leaf(info, id, ok), b')
    case Composite(_, _, _) =>
      var n := if |b'| < COUNT_SIZE then 0 else Value(b'[..COUNT_SIZE]);
      var b'' := if |b'| < COUNT_SIZE then b' else b'[COUNT_SIZE..];
      if n > MAX_COMMANDS then Overrun
      else
        match ReadChildren(reg, n, b'')
        case Overrun => Overrun
        case Done(children, rest) => Done(Composite(id, ok, children), rest)
  }

  /** The loop of `CompositeCommand::read`. An unknown class stops it and leaves the slots from
      there on empty. */
  function ReadChildren(reg: Registry, n: nat, b: seq<byte>): (r: Reading<seq<Command>>)
    ensures r.Done? ==> |r.value| == n && |r.rest| <= |b|
    decreases |b|, 1, n
  {
    if n == 0 then Done([], b)
    else
      match ReadChild(reg, b)
      case Overrun => Overrun
      case Done(child, b') =>
        if child.Missing? then Done(NoCommands(n), b')
        else
          match ReadChildren(reg, n - 1, b')
          case Overrun => Overrun
          case Done(others, rest) => Done([child] + others, rest)
  }

  /** One turn of the loop: class information, a command of that class, the rest of the command.
      Too few bytes for class information are the unknown nameless class. */
  function ReadChild(reg: Registry, b: seq<byte>): (r: Reading<Command>)
    ensures r.Done? ==> |r.rest| <= |b|
    decreases |b|, 0, 0
  {
    if |b| < INFO_SIZE then Done(Missing, b)
    else
      var c := Create(reg, b[..INFO_SIZE], |b| - INFO_SIZE);
      if c.Missing? then Done(Missing, b[INFO_SIZE..]) else ReadBody(reg, c, b[INFO_SIZE..])
  }

  function NoCommands(n: nat): (cs: seq<Command>)
    ensures |cs| == n && forall k :: 0 <= k < n ==> cs[k].Missing?
  {
    seq(n, _ => Missing)
  }

  // ---------- Round trip ----------

  /** Every command below the root is of a class the registry knows under its name. */
  predicate Registered(reg: Registry, c: Command)
    decreases c, 0
  {
    c.Composite? ==> forall k :: 0 <= k < |c.children| ==> ChildRegistered(reg, c.children[k])
  }

  predicate ChildRegistered(reg: Registry, c: Command)
    decreases c, 1
  {
    && !c.Missing?
    && c.Info().FullName() in reg.classes && reg.classes[c.Info().FullName()] == c.Info()
    && Registered(reg, c)
  }

  lemma {:induction false} CStringOfPadded(n: Name, tail: seq<byte>)
    requires 0 !in n && tail != [] && tail[0] == 0
    ensures CString(n + tail) == n
  {
    if n == [] {
      assert n + tail == tail;
    } else {
      assert (n + tail)[1..] == n[1..] + tail;
      CStringOfPadded(n[1..], tail);
    }
  }

  lemma FullNameOfBytes(info: ClassInfo)
    requires info.Valid()
    ensures FullNameOf(info.Bytes()) == info.FullName()
  {
    var b := info.Bytes();
    assert b[..IDENTIFIER_SIZE] == Padded(info.namespace);
    assert b[IDENTIFIER_SIZE..2 * IDENTIFIER_SIZE] == Padded(info.name);
    CStringOfPadded(info.namespace, seq(IDENTIFIER_SIZE - |info.namespace|, _ => 0));
    CStringOfPadded(info.name, seq(IDENTIFIER_SIZE - |info.name|, _ => 0));
  }

  lemma ReadTaggedField(tag: seq<byte>, current: seq<byte>, v: seq<byte>, rest: seq<byte>)
    requires |tag| == INFO_SIZE && |current| == |v|
    ensures ReadTagged(tag, current, tag + (v + rest)) == Field(v, rest)
  {
    SplitConcat(tag, v + rest);
    SplitConcat(v, rest);
  }

  lemma ReadEncodedBase(id: Id, ok: Bool, id': Id, ok': Bool, rest: seq<byte>)
    ensures ReadBase(id, ok, EncodeBase(id', ok') + rest) == (id', ok', rest)
  {
    LibraryInfosValid();
    var tail := COMMAND_INFO.Bytes() + ([ok'] + rest);
    assert EncodeBase(id', ok') + rest == OBJECT_INFO.Bytes() + (IdBytes(id') + tail);
    ReadTaggedField(OBJECT_INFO.Bytes(), IdBytes(id), IdBytes(id'), tail);
    ReadTaggedField(COMMAND_INFO.Bytes(), [ok], [ok'], rest);
    IdFits(id');
    SignedRoundTrip(id' as int, ID_SIZE);
  }

  predicate Rebuilds<A(==)>(r: Reading<A>, a: A) {
    r.Done? && r.value == a
  }

  /** Reading what a command wrote into a new one, whatever bytes follow, rebuilds the same tree and
      consumes exactly what was written if and only if every class below the root is registered. */
  lemma {:induction false} RoundTrip(reg: Registry, c: Command, id: Id, rest: seq<byte>)
    requires Encodable(c)
    ensures Registered(reg, c) ==> ReadBody(reg, Fresh(c.Info(), id), EncodeBody(c) + rest) == Done(c, rest)
    ensures Rebuilds(ReadBody(reg, Fresh(c.Info(), id), EncodeBody(c) + rest), c) ==> Registered(reg, c)
    decreases c, 0
  {
    var f := Fresh(c.Info(), id);
    match c
    case Leaf(info, id, ok) =>
      ReadEncodedBase(f.id, f.ok, id, ok, rest);
    case Composite(id, ok, children) =>
      var tail := EncodeAll(children) + rest;
      var count := Digits(|children|, COUNT_SIZE);
      assert EncodeBody(c) + rest == EncodeBase(id, ok) + (count + tail);
      ReadEncodedBase(f.id, f.ok, id, ok, count + tail);
      SplitConcat(count, tail);
      CountRoundTrip(|children|);
      if AllRegistered(reg, children) {
        ChildrenRead(reg, children, rest);
      } else if Rebuilds(ReadChildren(reg, |children|, tail), children) {
        ChildrenRebuilt(reg, children, rest);
      }
  }

  lemma CountRoundTrip(n: nat)
    requires n <= MAX_COMMANDS
    ensures Value(Digits(n, COUNT_SIZE)) == n
  {
    IdFits(0);
    SmallValue(n, COUNT_SIZE);
  }

  predicate AllRegistered(reg: Registry, cs: seq<Command>) {
    forall k :: 0 <= k < |cs| ==> ChildRegistered(reg, cs[k])
  }

  /** The bytes of a list of commands, split after the first class information. */
  lemma FirstOfAll(cs: seq<Command>, rest: seq<byte>) returns (info: seq<byte>, body: seq<byte>)
    requires cs != [] && forall k :: 0 <= k < |cs| ==> Encodable(cs[k])
    ensures Encodable(cs[0]) && |info| == INFO_SIZE && FullNameOf(info) == cs[0].Info().FullName()
    ensures body == EncodeBody(cs[0]) + (EncodeAll(cs[1..]) + rest)
    ensures EncodeAll(cs) + rest == info + body
  {
    LibraryInfosValid();
    FullNameOfBytes(cs[0].Info());
    var others := EncodeAll(cs[1..]);
    info, body := cs[0].Info().Bytes(), EncodeBody(cs[0]) + (others + rest);
    ConcatAssociates(info + EncodeBody(cs[0]), others, rest);
    ConcatAssociates(info, EncodeBody(cs[0]), others + rest);
  }

  lemma {:induction false} ChildrenRead(reg: Registry, cs: seq<Command>, rest: seq<byte>)
    requires AllRegistered(reg, cs) && forall k :: 0 <= k < |cs| ==> Encodable(cs[k])
    ensures ReadChildren(reg, |cs|, EncodeAll(cs) + rest) == Done(cs, rest)
    decreases cs, 1
  {
    if cs != [] {
      ChildrenRead(reg, cs[1..], rest);
      ChildRead(reg, cs, cs[1..], rest, rest);
      HeadAndTail(cs);
    }
  }

  /** A child of a registered class is read, whatever becomes of those after it. */
  lemma {:induction false} ChildRead(
    reg: Registry, cs: seq<Command>, others: seq<Command>, rest: seq<byte>, left: seq<byte>)
    requires cs != [] && ChildRegistered(reg, cs[0]) && forall k :: 0 <= k < |cs| ==> Encodable(cs[k])
    requires |others| == |cs| - 1 && ReadChildren(reg, |others|, EncodeAll(cs[1..]) + rest) == Done(others, left)
    ensures ReadChildren(reg, |cs|, EncodeAll(cs) + rest) == Done([cs[0]] + others, left)
    decreases cs, 0
  {
    var info, body := FirstOfAll(cs, rest);
    var after := EncodeAll(cs[1..]) + rest;
    RoundTrip(reg, cs[0], reg.ids(|body|), after);
    FirstChildRead(reg, cs[0], others, info, body, after, left);
  }

  lemma {:induction false} ChildrenRebuilt(reg: Registry, cs: seq<Command>, rest: seq<byte>)
    requires forall k :: 0 <= k < |cs| ==> Encodable(cs[k])
    requires Rebuilds(ReadChildren(reg, |cs|, EncodeAll(cs) + rest), cs)
    ensures AllRegistered(reg, cs)
    decreases cs
  {
    if cs != [] {
      var info, body := FirstOfAll(cs, rest);
      RoundTrip(reg, cs[0], reg.ids(|body|), EncodeAll(cs[1..]) + rest);
      var after := FirstChildRebuilt(reg, cs, info, body);
      ChildrenRebuilt(reg, cs[1..], rest);
      assert cs == [cs[0]] + cs[1..];
    }
  }

  lemma FirstChildRead(
    reg: Registry, c: Command, others: seq<Command>, info: seq<byte>, body: seq<byte>, after: seq<byte>,
    rest: seq<byte>)
    requires !c.Missing? && |info| == INFO_SIZE
    requires FullNameOf(info) in reg.classes && reg.classes[FullNameOf(info)] == c.Info()
    requires ReadBody(reg, Fresh(c.Info(), reg.ids(|body|)), body) == Done(c, after)
    requires ReadChildren(reg, |others|, after) == Done(others, rest)
    ensures ReadChildren(reg, |others| + 1, info + body) == Done([c] + others, rest)
  {
    ReadChildrenStep(reg, |others| + 1, info, body);
  }

  lemma ReadChildStep(reg: Registry, info: seq<byte>, body: seq<byte>)
    requires |info| == INFO_SIZE
    ensures var c := Create(reg, info, |body|);
      ReadChild(reg, info + body) == if c.Missing? then Done(Missing, body) else ReadBody(reg, c, body)
  {
    SplitConcat(info, body);
  }

  /** One turn of the reading loop, the class information split off. */
  lemma ReadChildrenStep(reg: Registry, n: nat, info: seq<byte>, body: seq<byte>)
    requires n > 0 && |info| == INFO_SIZE
    ensures ReadChildren(reg, n, info + body) ==
      var c := Create(reg, info, |body|);
      if c.Missing? then Done(NoCommands(n), body)
      else match ReadBody(reg, c, body)
        case Overrun => Overrun
        case Done(child, b) =>
          match ReadChildren(reg, n - 1, b)
          case Overrun => Overrun
          case Done(others, rest) => Done([child] + others, rest)
  {
    ReadChildStep(reg, info, body);
  }

  lemma FirstChildRebuilt(reg: Registry, cs: seq<Command>, info: seq<byte>, body: seq<byte>) returns (after: seq<byte>)
    requires cs != [] && !cs[0].Missing? && |info| == INFO_SIZE
    requires Rebuilds(ReadChildren(reg, |cs|, info + body), cs)
    ensures FullNameOf(info) in reg.classes && reg.classes[FullNameOf(info)] == cs[0].Info()
    ensures ReadBody(reg, Fresh(cs[0].Info(), reg.ids(|body|)), body) == Done(cs[0], after)
    ensures Rebuilds(ReadChildren(reg, |cs| - 1, after), cs[1..])
  {
    ReadChildrenStep(reg, |cs|, info, body);
    var c := Create(reg, info, |body|);
    if !c.Missing? {
      var child := ReadBody(reg, c, body);
      after := child.rest;
      var others := ReadChildren(reg, |cs| - 1, after);
      HeadOfAll(child.value, others.value, cs);
    }
  }

  lemma UnknownFirst(reg: Registry, cs: seq<Command>, rest: seq<byte>)
    requires cs != [] && forall i :: 0 <= i < |cs| ==> Encodable(cs[i])
    requires !cs[0].Missing? && cs[0].Info().FullName() !in reg.classes
    ensures ReadChildren(reg, |cs|, EncodeAll(cs) + rest)
      == Done(NoCommands(|cs|), EncodeBody(cs[0]) + (EncodeAll(cs[1..]) + rest))
  {
    var info, body := FirstOfAll(cs, rest);
    ReadChildrenStep(reg, |cs|, info, body);
  }

  /** The first child of an unknown class stops the reading: the children before it are rebuilt, the
      slots from there on are empty, and what follows its class information stays unread. */
  lemma {:induction false} UnknownClassStops(reg: Registry, done: seq<Command>, cs: seq<Command>, rest: seq<byte>)
    requires cs != [] && (forall i :: 0 <= i < |cs| ==> Encodable(cs[i]))
    requires !cs[0].Missing? && cs[0].Info().FullName() !in reg.classes
    requires AllRegistered(reg, done) && forall i :: 0 <= i < |done| ==> Encodable(done[i])
    ensures ReadChildren(reg, |done + cs|, EncodeAll(done + cs) + rest)
      == Done(done + NoCommands(|cs|), EncodeBody(cs[0]) + (EncodeAll(cs[1..]) + rest))
    decreases done
  {
    var empty := NoCommands(|cs|);
    if done == [] {
      assert done + cs == cs && done + empty == empty;
      UnknownFirst(reg, cs, rest);
    } else {
      var tail := EncodeBody(cs[0]) + (EncodeAll(cs[1..]) + rest);
      UnknownClassStops(reg, done[1..], cs, rest);
      FirstOfConcat(done, cs);
      FirstOfConcat(done, empty);
      ChildRead(reg, done + cs, done[1..] + empty, rest, tail);
    }
  }

  lemma FirstOfConcat(a: seq<Command>, b: seq<Command>)
    requires a != []
    ensures (a + b)[0] == a[0] && (a + b)[1..] == a[1..] + b && a + b == [a[0]] + (a[1..] + b)
  {
  }

  lemma HeadOfAll(c: Command, others: seq<Command>, cs: seq<Command>)
    requires [c] + others == cs
    ensures c == cs[0] && others == cs[1..]
  {
  }

  /** The library registers only the null command. A composite below the root is then not read
      back, so nested composites survive the round trip only if the client registers their class. */
  function Shipped(ids: nat -> Id): Registry {
    Registry(map[NULL_COMMAND_INFO.FullName() := NULL_COMMAND_INFO], ids)
  }

  lemma NestedCompositeNotRestored(ids: nat -> Id, id: Id, rest: seq<byte>)
    ensures var inner := Composite(1, UNKNOWN, []);
      var c := Composite(2, UNKNOWN, [inner]);
      Encodable(c) && !Rebuilds(ReadBody(Shipped(ids), Fresh(c.Info(), id), EncodeBody(c) + rest), c)
  {
    var inner := Composite(1, UNKNOWN, []);
    var c := Composite(2, UNKNOWN, [inner]);
    RoundTrip(Shipped(ids), c, id, rest);
    LibraryInfosValid();
    assert !ChildRegistered(Shipped(ids), c.children[0]);
  }

  // ---------- Reading into a command that is already in use ----------

  /** What the reading loop makes of the slots and of the rest of the buffer, from slot `i` on. */
  function ReadFrom(reg: Registry, slots: seq<Command>, i: nat, b: seq<byte>): Reading<seq<Command>>
    requires i <= |slots|
    decreases |slots| - i
  {
    if i == |slots| then Done(slots, b)
    else
      match ReadChild(reg, b)
      case Overrun => Overrun
      case Done(child, rest) =>
        if child.Missing? then Done(slots, rest) else ReadFrom(reg, slots[i := child], i + 1, rest)
  }

  /** The child count, which a buffer too short for it leaves as it is, and the bytes after it. */
  function ReadCount(index: nat, b: seq<byte>): (nat, seq<byte>) {
    if |b| < COUNT_SIZE then (index, b) else (Value(b[..COUNT_SIZE]), b[COUNT_SIZE..])
  }

  /** The virtual `read` of any command. `slots` is its whole array, of which the children are the
      beginning; what is not read over stays, beyond the old children too. */
  function ReadOver(reg: Registry, c: Command, slots: seq<Command>, b: seq<byte>): Reading<Command>
    requires !c.Missing? && (c.Composite? ==> |slots| == MAX_COMMANDS)
  {
    var (id, ok, b') := ReadBase(c.id, c.ok, b);
    match c
    case Leaf(info, _, _) => Done(Leaf(info, id, ok), b')
    case Composite(_, _, children) =>
      var (n, b'') := ReadCount(|children|, b');
      if n > MAX_COMMANDS then Overrun
      else
        match ReadFrom(reg, slots[..n], 0, b'')
        case Overrun => Overrun
        case Done(cs, rest) => Done(Composite(id, ok, cs), rest)
  }

  /** What the loop should leave in the slots: the children read, and before and after them what was
      there before. */
  ghost predicate ReadOverSlots(slots: seq<Command>, i: nat, read: seq<Command>, slots': seq<Command>)
    requires i + |read| == |slots|
  {
    && |slots'| == |slots|
    && (forall j :: 0 <= j < i ==> slots'[j] == slots[j])
    && forall j :: i <= j < |slots| ==> slots'[j] == if read[j - i].Missing? then slots[j] else read[j - i]
  }

  /** The loop refines the recursive reading of children: it keeps what it does not read over. */
  lemma {:induction false} ReadFromChildren(reg: Registry, slots: seq<Command>, i: nat, b: seq<byte>)
    requires i <= |slots|
    ensures var r := ReadChildren(reg, |slots| - i, b); var r' := ReadFrom(reg, slots, i, b);
      && (r.Overrun? <==> r'.Overrun?)
      && (r.Done? ==> r'.rest == r.rest && ReadOverSlots(slots, i, r.value, r'.value))
    decreases |slots| - i
  {
    if i < |slots| {
      var r := ReadChild(reg, b);
      if r.Done? && !r.value.Missing? {
        ReadFromChildren(reg, slots[i := r.value], i + 1, r.rest);
      }
    }
  }

  /** For a new command it is the reading of a new command. */
  lemma ReadOverFresh(reg: Registry, c: Command, slots: seq<Command>, b: seq<byte>)
    requires !c.Missing? && (c.Composite? ==> c.children == [] && slots == NoCommands(MAX_COMMANDS))
    ensures ReadOver(reg, c, slots, b) == ReadBody(reg, c, b)
  {
    if c.Composite? {
      var (n, rest) := ReadCount(0, ReadBase(c.id, c.ok, b).2);
      if n <= MAX_COMMANDS {
        assert slots[..n] == NoCommands(n);
        ReadFromChildren(reg, slots[..n], 0, rest);
        var r, r' := ReadChildren(reg, n, rest), ReadFrom(reg, slots[..n], 0, rest);
        assert r.Done? ==> r'.value == r.value;
      }
    }
  }

  lemma NoneMissing(cs: seq<Command>)
    requires forall k :: 0 <= k < |cs| ==> Encodable(cs[k])
    ensures Missing !in cs
  {
  }

  /** Reading what a command wrote into any command of its class, whatever that held before, makes
      it the same tree and consumes exactly what was written. */
  lemma RoundTripOver(reg: Registry, c: Command, before: Command, slots: seq<Command>, rest: seq<byte>)
    requires Encodable(c) && Registered(reg, c)
    requires !before.Missing? && before.Info() == c.Info()
    requires c.Composite? ==> before.Composite? && |slots| == MAX_COMMANDS
    requires c.Leaf? ==> before.Leaf?
    ensures ReadOver(reg, before, slots, EncodeBody(c) + rest) == Done(c, rest)
  {
    match c
    case Leaf(_, id, ok) => ReadEncodedBase(before.id, before.ok, id, ok, rest);
    case Composite(id, ok, children) =>
      var n := |children|;
      var tail := EncodeAll(children) + rest;
      var count := Digits(n, COUNT_SIZE);
      BodyParts(id, ok, children, rest);
      ReadEncodedBase(before.id, before.ok, id, ok, count + tail);
      SplitConcat(count, tail);
      CountRoundTrip(n);
      ReadFromOver(reg, slots[..n], children, rest);
  }

  lemma ReadFromOver(reg: Registry, slots: seq<Command>, cs: seq<Command>, rest: seq<byte>)
    requires |slots| == |cs| && AllRegistered(reg, cs) && forall k :: 0 <= k < |cs| ==> Encodable(cs[k])
    ensures ReadFrom(reg, slots, 0, EncodeAll(cs) + rest) == Done(cs, rest)
  {
    ChildrenRead(reg, cs, rest);
    NoneMissing(cs);
    ReadFromChildren(reg, slots, 0, EncodeAll(cs) + rest);
    assert ReadFrom(reg, slots, 0, EncodeAll(cs) + rest).value == cs;
  }

  lemma BodyParts(id: Id, ok: Bool, cs: seq<Command>, rest: seq<byte>)
    requires Encodable(Composite(id, ok, cs))
    ensures EncodeBody(Composite(id, ok, cs)) + rest ==
      EncodeBase(id, ok) + (Digits(|cs|, COUNT_SIZE) + (EncodeAll(cs) + rest))
  {
    ConcatAssociates(EncodeBase(id, ok), Digits(|cs|, COUNT_SIZE) + EncodeAll(cs), rest);
    ConcatAssociates(Digits(|cs|, COUNT_SIZE), EncodeAll(cs), rest);
  }
}
