/** The command objects of `cpp/src/command.hpp`: a composite owns the commands in its array. */
module Commands {
  import opened Bytes
  import opened BinaryBuffers
  import opened CommandTrees
  import opened CommandLayouts
  import opened Sequences
  import opened Wrappers
  import Runs = CommandRuns

  class CommandObject {
    const info: ClassInfo
    var id: Id
    var ok: Bool
    const commands: array<CommandObject?>
    var index: nat
    ghost var Repr: set<object>

    /** The array is there for composites only; the commands in it, those beyond the index that an
        earlier reading may have left there too, own disjoint objects. */
    ghost predicate Valid()
      reads this, Repr
      decreases Repr
    {
      && this in Repr && commands in Repr
      && info.Valid()
      && commands.Length == (if info == COMPOSITE_INFO then MAX_COMMANDS else 0)
      && index <= commands.Length
      && (forall i :: 0 <= i < commands.Length && commands[i] != null ==>
        && commands[i] in Repr && commands[i].Repr <= Repr - {this, commands}
        && commands[i].Valid())
      && (forall i, j :: 0 <= i < j < commands.Length && commands[i] != null && commands[j] != null ==>
        commands[i].Repr !! commands[j].Repr)
    }

    /** The tree of commands this object stands for. */
    ghost function Tree(): (c: Command)
      requires Valid()
      reads this, Repr
      ensures !c.Missing? && c.Info() == info && c.id == id && c.ok == ok
      decreases Repr, 1
    {
      if info == COMPOSITE_INFO then Composite(id, ok, Children(index)) else Leaf(info, id, ok)
    }

    ghost function Children(n: nat): (cs: seq<Command>)
      requires Valid() && n <= commands.Length
      reads this, Repr
      ensures |cs| == n
      decreases Repr, 0, n
    {
      if n == 0 then [] else Children(n - 1) + [Child(n - 1)]
    }

    lemma {:induction false} ChildrenAt(n: nat)
      requires Valid() && n <= commands.Length
      ensures forall i :: 0 <= i < n ==> Children(n)[i] == Child(i)
    {
      if n > 0 {
        ChildrenAt(n - 1);
      }
    }

    lemma {:induction false} ChildrenAre(n: nat, cs: seq<Command>)
      requires Valid() && n <= commands.Length && |cs| == n
      requires forall i :: 0 <= i < n ==> Child(i) == cs[i]
      ensures Children(n) == cs
    {
      if n > 0 {
        ChildrenAre(n - 1, cs[..n - 1]);
      }
    }

    twostate lemma {:induction false} SameChildren(n: nat)
      requires old(Valid()) && Valid() && n <= commands.Length
      requires forall i :: 0 <= i < n ==> Child(i) == old(Child(i))
      ensures Children(n) == old(Children(n))
    {
      if n > 0 {
        SameChildren(n - 1);
      }
    }

    ghost function Child(i: nat): Command
      requires Valid() && i < commands.Length
      reads this, Repr
      decreases Repr, 0, 0
    {
      if commands[i] == null then Missing else commands[i].Tree()
    }

    /** As the constructor leaves it: no mark and no command in any slot. */
    ghost predicate New()
      reads this, Repr
    {
      && Valid() && Tree() == Fresh(info, id)
      && forall j :: 0 <= j < commands.Length ==> commands[j] == null
    }

    /** A new command with the given id, or with the one drawn from the generator for the null id. */
    constructor (info: ClassInfo, aid: Id, drawn: Id)
      requires info.Valid()
      ensures New() && fresh(Repr) && this.info == info && id == (if aid == -1 then drawn else aid)
      ensures ok == 255 && index == 0 && (info == COMPOSITE_INFO ==> commands.Length == 10)
    {
      this.info := info;
      id, ok := if aid == NULL_ID then drawn else aid, UNKNOWN;
      var slots := new CommandObject?[if info == COMPOSITE_INFO then MAX_COMMANDS else 0](_ => null);
      commands := slots;
      index := 0;
      Repr := {this, slots};
    }

    /** `CompositeCommand::add`: takes over the command unless the array is full. */
    method Add(command: CommandObject) returns (threw: bool)
      requires Valid() && info == COMPOSITE_INFO
      requires command.Valid() && command.Repr !! Repr
      modifies this, commands
      ensures Valid() && Repr == old(Repr) + (if threw then {} else command.Repr)
      ensures threw <==> old(index) == 10
      ensures !threw ==> index == old(index) + 1 && commands[old(index)] == command
      ensures Tree() == if threw then old(Tree())
        else Composite(id, ok, old(Tree()).children + [old(command.Tree())])
    {
      if index >= MAX_COMMANDS {
        return true;
      }
      commands[index] := command;
      index := index + 1;
      Repr := Repr + command.Repr;
      Added(command);
      return false;
    }

    /** The children after a command has been stored in the next slot. */
    twostate lemma Added(command: CommandObject)
      requires old(Valid()) && old(command.Valid()) && command.Repr !! old(Repr)
      requires 0 < index <= commands.Length && index == old(index) + 1 && commands[index - 1] == command
      requires Repr == old(Repr) + command.Repr
      requires forall j :: 0 <= j < commands.Length && j != index - 1 ==> commands[j] == old(commands[j])
      requires command.Repr == old(command.Repr)
      requires forall o :: o in old(Repr) && o != this && o != commands ==> unchanged(o)
      requires forall o :: o in old(command.Repr) ==> unchanged(o)
      ensures Valid() && Children(index) == old(Children(index)) + [old(command.Tree())]
    {
      assert Valid();
      SameChildren(index - 1);
    }

    /** A step that only touches the objects of child `i` leaves everything else as it was. */
    twostate lemma OneChildChanged(i: nat)
      requires old(Valid()) && i < commands.Length && old(commands[i]) != null
      requires forall o :: o in old(Repr) && o !in old(commands[i].Repr) ==> unchanged(o)
      requires commands[i].Valid() && commands[i].Repr == old(commands[i].Repr)
      ensures Valid()
      ensures forall j :: 0 <= j < commands.Length && j != i ==> Child(j) == old(Child(j))
    {
      forall j | 0 <= j < commands.Length && j != i && commands[j] != null
        ensures commands[j].Valid() && commands[j].Repr == old(commands[j].Repr)
        ensures commands[j].Tree() == old(commands[j].Tree())
      {
        assert old(commands[j]).Repr !! old(commands[i]).Repr;
        assert forall o <- old(commands[j].Repr) :: unchanged(o);
      }
    }

    /** A new id or mark of this command does not reach its children. */
    twostate lemma OnlyFieldsChanged()
      requires old(Valid()) && index == old(index) && Repr == old(Repr)
      requires forall o :: o in old(Repr) && o != this ==> unchanged(o)
      ensures Valid() && Children(index) == old(Children(index)) && Slots() == old(Slots())
    {
      forall j | 0 <= j < commands.Length && commands[j] != null
        ensures commands[j].Valid() && commands[j].Repr == old(commands[j].Repr)
        ensures commands[j].Tree() == old(commands[j].Tree())
      {
        assert forall o <- old(commands[j].Repr) :: unchanged(o);
      }
      SameChildren(index);
      SameChildren(commands.Length);
    }

    /** Runs the first of the children that have not run yet. */
    method RunChild<S>(acts: Runs.Actions<S>, s: S, ghost done: seq<Command>, ghost todo: seq<Command>, i: nat)
      returns (s': S, threw: bool)
      requires Valid() && todo != [] && Children(index) == done + todo
      requires i == |done| && Complete(todo[0])
      modifies Repr - {this, commands}
      ensures Valid()
      ensures var r := Runs.Run(acts, todo[0], s);
        Children(index) == done + [r.command] + todo[1..] && s' == r.state && threw == r.threw
      decreases Repr, 0
    {
      ReplaceHead(done, todo, todo[0]);
      ghost var trees := Children(index);
      ChildrenAt(index);
      s', threw := commands[i].Run(acts, s);
      OneChildChanged(i);
      ChildrenAre(index, trees[i := Child(i)]);
      ReplaceHead(done, todo, Child(i));
    }

    /** A step that touches none of its objects leaves the command as it was. */
    twostate lemma Untouched()
      requires old(Valid())
      requires forall o :: o in old(Repr) ==> unchanged(o)
      ensures Valid() && Children(index) == old(Children(index))
    {
      SameChildren(index);
    }

    /** `CompositeCommand::_run`: front to back, stopped by the first child that throws. */
    method RunChildren<S>(acts: Runs.Actions<S>, s: S, ghost trees: seq<Command>) returns (s': S, threw: bool)
      requires Valid() && trees == Children(index) && AllComplete(trees)
      modifies Repr - {this, commands}
      ensures Valid()
      ensures Runs.ListOutcome(Children(index), s', threw) == Runs.RunAll(acts, trees, s)
      decreases Repr, 1
    {
      s', threw := s, false;
      ghost var result := Runs.RunAll(acts, trees, s);
      ghost var done, todo := [], trees;
      assert done + todo == trees && done + result.commands == result.commands;
      var i := 0;
      while i < index && !threw
        invariant i == |done| && |done| + |todo| == index && Valid()
        invariant Children(index) == done + todo
        invariant AllComplete(todo)
        invariant result == Resume(acts, done, todo, s', threw)
      {
        ResumeStep(acts, done, todo, s');
        ghost var first := Runs.Run(acts, todo[0], s').command;
        s', threw := RunChild(acts, s', done, todo, i);
        done, todo := done + [first], todo[1..];
        i := i + 1;
      }
      ResumeDone(acts, done, todo, s', threw);
    }

    /** `run`: the action, and then the mark unless the action threw. */
    method Run<S>(acts: Runs.Actions<S>, s: S) returns (s': S, threw: bool)
      requires Valid() && Complete(Tree())
      modifies Repr
      ensures Valid() && Repr == old(Repr) && ok == if threw then old(ok) else 1
      ensures info != COMPOSITE_INFO ==> (s', threw) == acts.run(info, id, s)
      ensures Runs.Outcome(Tree(), s', threw) == Runs.Run(acts, old(Tree()), s)
      decreases Repr, 2
    {
      if info == COMPOSITE_INFO {
        s', threw := RunChildren(acts, s, Tree().children);
      } else {
        var r := acts.run(info, id, s);
        s', threw := r.0, r.1;
      }
      if !threw {
        label before:
        ok := TRUE;
        OnlyFieldsChanged@before();
      }
    }

    /** `undo`, which changes no command: front to back through the children of a marked one. */
    method Undo<S>(acts: Runs.Actions<S>, s: S) returns (s': S)
      requires Valid() && Complete(Tree())
      ensures s' == Runs.Undo(acts, Tree(), s)
      ensures ok != 1 ==> s' == s
      ensures ok == 1 && info != COMPOSITE_INFO ==> s' == acts.undo(info, id, s)
      decreases Repr
    {
      s' := s;
      if ok != TRUE {
        return;
      }
      if info != COMPOSITE_INFO {
        s' := acts.undo(info, id, s);
        return;
      }
      ghost var trees := Tree().children;
      ChildrenAt(index);
      assert AllComplete(trees);
      for i := 0 to index
        invariant AllComplete(trees[i..])
        invariant Runs.UndoAll(acts, trees, s) == Runs.UndoAll(acts, trees[i..], s')
      {
        assert Child(i) == trees[i] && Complete(trees[i..][0]);
        s' := commands[i].Undo(acts, s');
        assert trees[i..][1..] == trees[i + 1..];
      }
    }

    /** `Command::write`, with `Object::write` inside it. */
    method WriteBase(bb: BinaryBuffer)
      requires bb.Valid()
      modifies bb
      ensures bb.Valid() && bb.readPos == old(bb.readPos)
      ensures bb.Data() == old(bb.Data()) + EncodeBase(id, ok)
      ensures BaseAt(id, ok, bb.Data(), old(bb.writePos)) && bb.writePos == old(bb.writePos) + 421
      ensures old(bb.writePos == |bb.buffer|) ==> bb.writePos == |bb.buffer|
    {
      LibraryInfosValid();
      bb.Write(OBJECT_INFO.Bytes());
      bb.Write(IdBytes(id));
      bb.Write(COMMAND_INFO.Bytes());
      bb.Write([ok]);
      AppendFour(old(bb.Data()), OBJECT_INFO.Bytes(), IdBytes(id), COMMAND_INFO.Bytes(), [ok]);
      AppendedBase(id, ok, old(bb.Data()));
    }

    /** `write`: class information, the base part, and for a composite its children in order. */
    method Write(bb: BinaryBuffer, ghost tree: Command)
      requires Valid() && tree == Tree() && Encodable(tree)
      requires bb.Valid() && bb !in Repr
      modifies bb
      ensures bb.Valid() && bb.readPos == old(bb.readPos)
      ensures bb.Data() == old(bb.Data()) + Encode(tree)
      ensures CommandAt(tree, bb.Data(), old(bb.writePos)) && bb.writePos == old(bb.writePos) + Size(tree)
      ensures old(bb.writePos == |bb.buffer|) ==> bb.writePos == |bb.buffer|
      decreases Repr, 3
    {
      ghost var before := bb.Data();
      bb.Write(info.Bytes());
      WriteBody(bb, tree);
      ConcatAssociates(before, info.Bytes(), EncodeBody(tree));
      AppendedLayout(tree, before);
    }

    /** What follows the class information. */
    method WriteBody(bb: BinaryBuffer, ghost tree: Command)
      requires Valid() && tree == Tree() && Encodable(tree)
      requires bb.Valid() && bb !in Repr
      modifies bb
      ensures bb.Valid() && bb.readPos == old(bb.readPos)
      ensures bb.Data() == old(bb.Data()) + EncodeBody(tree)
      ensures old(bb.writePos == |bb.buffer|) ==> bb.writePos == |bb.buffer|
      decreases Repr, 2
    {
      ghost var before := bb.Data();
      WriteBase(bb);
      if info == COMPOSITE_INFO {
        ghost var trees := tree.children;
        WriteChildren(bb, trees);
        ConcatAssociates(before, EncodeBase(id, ok), Digits(index, COUNT_SIZE) + EncodeAll(trees));
      }
    }

    /** The child count and then every child. */
    method WriteChildren(bb: BinaryBuffer, ghost trees: seq<Command>)
      requires Valid() && trees == Children(index) && AllEncodable(trees)
      requires bb.Valid() && bb !in Repr
      modifies bb
      ensures bb.Valid() && bb.readPos == old(bb.readPos)
      ensures bb.Data() == old(bb.Data()) + (Digits(|trees|, COUNT_SIZE) + EncodeAll(trees))
      ensures old(bb.writePos == |bb.buffer|) ==> bb.writePos == |bb.buffer|
      decreases Repr, 1
    {
      bb.Write(Digits(index, COUNT_SIZE));
      ghost var before := bb.Data();
      ChildrenAt(index);
      for i := 0 to index
        invariant bb.Valid() && bb.readPos == old(bb.readPos)
        invariant AllEncodable(trees[..i])
        invariant bb.Data() == before + EncodeAll(trees[..i])
        invariant old(bb.writePos == |bb.buffer|) ==> bb.writePos == |bb.buffer|
      {
        EncodeOneMore(trees, i);
        WriteChild(bb, i, trees[i]);
        ConcatAssociates(before, EncodeAll(trees[..i]), Encode(trees[i]));
      }
      assert trees[..index] == trees;
      ConcatAssociates(old(bb.Data()), Digits(index, COUNT_SIZE), EncodeAll(trees));
    }

    method WriteChild(bb: BinaryBuffer, i: nat, ghost tree: Command)
      requires Valid() && i < index && tree == Child(i) && Encodable(tree)
      requires bb.Valid() && bb !in Repr
      modifies bb
      ensures bb.Valid() && bb.readPos == old(bb.readPos)
      ensures bb.Data() == old(bb.Data()) + Encode(tree)
      ensures old(bb.writePos == |bb.buffer|) ==> bb.writePos == |bb.buffer|
      decreases Repr, 0
    {
      commands[i].Write(bb, tree);
    }

    /** A creator of the registry, or null for a class it does not know. */
    static method Create(reg: Registry, bytes: seq<byte>, left: nat) returns (c: CommandObject?)
      requires ProperRegistry(reg) && |bytes| == INFO_SIZE
      ensures c == null <==> CommandTrees.Create(reg, bytes, left).Missing?
      ensures c != null ==> c.New() && fresh(c.Repr) && c.Tree() == CommandTrees.Create(reg, bytes, left)
    {
      if FullNameOf(bytes) !in reg.classes {
        return null;
      }
      c := new CommandObject(reg.classes[FullNameOf(bytes)], NULL_ID, reg.ids(left));
    }

    /** Class information that must agree with `tag`, then a field; `current` when there is none. */
    static method ReadTagged(bb: BinaryBuffer, tag: seq<byte>, current: seq<byte>) returns (value: seq<byte>)
      requires bb.Valid() && |tag| == INFO_SIZE
      modifies bb`readPos
      ensures bb.Valid()
      ensures Field(value, bb.Unread()) == CommandTrees.ReadTagged(tag, current, old(bb.Unread()))
      ensures var b := old(bb.Unread());
        if |b| < 206 then value == current && bb.Unread() == b
        else if b[..206] != tag || |b| < 206 + |current| then value == current && bb.Unread() == b[206..]
        else value == b[206..206 + |current|] && bb.Unread() == b[206 + |current|..]
    {
      var seen := bb.Read(INFO_SIZE);
      if seen.None? || seen.value != tag {
        return current;
      }
      var field := bb.Read(|current|);
      value := if field.Some? then field.value else current;
    }

    /** `Command::read`, with `Object::read` inside it. */
    method ReadBase(bb: BinaryBuffer)
      requires bb.Valid()
      modifies this`id, this`ok, bb`readPos
      ensures bb.Valid()
      ensures (id, ok, bb.Unread()) == CommandTrees.ReadBase(old(id), old(ok), old(bb.Unread()))
    {
      LibraryInfosValid();
      var idBytes := ReadTagged(bb, OBJECT_INFO.Bytes(), IdBytes(id));
      id := IdOf(idBytes);
      var okByte := ReadTagged(bb, COMMAND_INFO.Bytes(), [ok]);
      ok := okByte[0];
    }

    /** What all slots of the array hold. */
    ghost function Slots(): seq<Command>
      requires Valid()
      reads this, Repr
    {
      Children(commands.Length)
    }

    /** The virtual `read`, whose class information is already consumed, of a command in any state. */
    method Read(reg: Registry, bb: BinaryBuffer, ghost result: Reading<Command>) returns (overrun: bool)
      requires ProperRegistry(reg) && Valid()
      requires bb.Valid() && bb !in Repr
      requires result == ReadOver(reg, Tree(), Slots(), bb.Unread())
      modifies this, commands, bb`readPos
      ensures bb.Valid() && fresh(Repr - old(Repr))
      ensures overrun <==> result.Overrun?
      ensures !overrun ==> Valid() && result == Done(Tree(), bb.Unread())
      decreases |bb.Unread()|, 4
    {
      ghost var slots := Slots();
      label before:
      ReadBase(bb);
      OnlyFieldsChanged@before();
      if info != COMPOSITE_INFO {
        return false;
      }
      var count := bb.Read(COUNT_SIZE);
      var n := if count.Some? then Value(count.value) else index;
      if n > MAX_COMMANDS {
        return true;
      }
      Resize(n, slots);
      overrun := ReadChildren(reg, bb, ReadFrom(reg, slots[..n], 0, bb.Unread()));
    }

    /** Takes over the child count; the slots stay as they are. */
    method Resize(n: nat, ghost slots: seq<Command>)
      requires Valid() && info == COMPOSITE_INFO && n <= MAX_COMMANDS && slots == Slots()
      modifies this`index
      ensures Valid() && index == n && Children(n) == slots[..n]
    {
      ChildrenAt(commands.Length);
      index := n;
      ChildrenAre(n, slots[..n]);
    }

    /** The loop of `CompositeCommand::read`, after the child count. */
    method ReadChildren(reg: Registry, bb: BinaryBuffer, ghost result: Reading<seq<Command>>) returns (overrun: bool)
      requires ProperRegistry(reg) && Valid() && bb.Valid() && bb !in Repr
      requires result == ReadFrom(reg, Children(index), 0, bb.Unread())
      modifies this`Repr, commands, bb`readPos
      ensures bb.Valid() && fresh(Repr - old(Repr))
      ensures overrun <==> result.Overrun?
      ensures !overrun ==> Valid() && result == Done(Children(index), bb.Unread())
      decreases |bb.Unread()|, 3
    {
      var i, stopped := 0, false;
      overrun := false;
      ghost var slots, rest := Children(index), bb.Unread();
      while i < index && !overrun && !stopped
        invariant i <= index && bb.Valid() && bb !in Repr && fresh(Repr - old(Repr))
        invariant overrun ==> result.Overrun?
        invariant !overrun ==> Valid() && slots == Children(index) && rest == bb.Unread()
        invariant !overrun ==> |rest| <= old(|bb.Unread()|)
        invariant !overrun ==> result == if stopped then Done(slots, rest) else ReadFrom(reg, slots, i, rest)
        decreases index - i
      {
        overrun, stopped, slots, rest := ReadTurn(reg, bb, i, slots, rest, result);
        i := i + 1;
      }
    }

    /** One turn of the loop: class information, a command of that class, the rest of the command. */
    method ReadChild(reg: Registry, bb: BinaryBuffer, i: nat, ghost r: Reading<Command>, ghost slots: seq<Command>)
      returns (overrun: bool, stopped: bool)
      requires ProperRegistry(reg) && Valid() && i < index
      requires bb.Valid() && bb !in Repr
      requires r == CommandTrees.ReadChild(reg, bb.Unread()) && slots == Children(index)
      modifies this`Repr, commands, bb`readPos
      ensures bb.Valid() && bb !in Repr && fresh(Repr - old(Repr))
      ensures overrun <==> r.Overrun?
      ensures !overrun ==> Valid() && (stopped <==> r.value.Missing?) && bb.Unread() == r.rest
      ensures !overrun ==> Children(index) == if stopped then slots else slots[i := r.value]
      decreases |bb.Unread()|, 1
    {
      var c;
      overrun, c := ReadNew(reg, bb, r);
      stopped := c == null;
      if !overrun && !stopped {
        Untouched();
        Fill(i, c, slots, r.value);
      }
    }

    /** Makes the next command of the buffer, or none when its class is unknown. */
    static method ReadNew(reg: Registry, bb: BinaryBuffer, ghost r: Reading<Command>)
      returns (overrun: bool, c: CommandObject?)
      requires ProperRegistry(reg) && bb.Valid()
      requires r == CommandTrees.ReadChild(reg, bb.Unread())
      modifies bb`readPos
      ensures bb.Valid()
      ensures overrun <==> r.Overrun?
      ensures !overrun ==> bb.Unread() == r.rest && (c == null <==> r.value.Missing?)
      ensures !overrun && c != null ==> c.Valid() && fresh(c.Repr) && c.Tree() == r.value
      decreases |bb.Unread()|, 0
    {
      var bytes := bb.Read(INFO_SIZE);
      if bytes.None? {
        return false, null;
      }
      c := Create(reg, bytes.value, |bb.buffer| - bb.readPos);
      if c == null {
        return false, null;
      }
      overrun := c.ReadFirst(reg, bb, r);
    }

    /** The `read` of a command just made. */
    method ReadFirst(reg: Registry, bb: BinaryBuffer, ghost r: Reading<Command>) returns (overrun: bool)
      requires ProperRegistry(reg) && New()
      requires bb.Valid() && bb !in Repr
      requires r == ReadBody(reg, Tree(), bb.Unread())
      modifies this, commands, bb`readPos
      ensures bb.Valid() && fresh(Repr - old(Repr))
      ensures overrun <==> r.Overrun?
      ensures !overrun ==> Valid() && r == Done(Tree(), bb.Unread())
      decreases |bb.Unread()|, 5
    {
      NewReads(reg, bb.Unread());
      overrun := Read(reg, bb, r);
    }

    lemma NewReads(reg: Registry, b: seq<byte>)
      requires New()
      ensures ReadOver(reg, Tree(), Slots(), b) == ReadBody(reg, Tree(), b)
    {
      ChildrenAre(commands.Length, NoCommands(commands.Length));
      ReadOverFresh(reg, Tree(), Slots(), b);
    }

    method ReadTurn(
      reg: Registry, bb: BinaryBuffer, i: nat,
      ghost slots: seq<Command>, ghost rest: seq<byte>, ghost result: Reading<seq<Command>>)
      returns (overrun: bool, stopped: bool, ghost slots': seq<Command>, ghost rest': seq<byte>)
      requires ProperRegistry(reg) && Valid() && i < index && slots == Children(index)
      requires bb.Valid() && bb !in Repr && rest == bb.Unread()
      requires result == ReadFrom(reg, slots, i, rest)
      modifies this`Repr, commands, bb`readPos
      ensures bb.Valid() && bb !in Repr && fresh(Repr - old(Repr))
      ensures overrun ==> result.Overrun?
      ensures !overrun ==> Valid() && slots' == Children(index) && rest' == bb.Unread() && |rest'| <= |rest|
      ensures !overrun ==>
        result == if stopped then Done(slots', rest') else ReadFrom(reg, slots', i + 1, rest')
      decreases |bb.Unread()|, 2
    {
      ghost var child := CommandTrees.ReadChild(reg, rest);
      overrun, stopped := ReadChild(reg, bb, i, child, slots);
      slots', rest' := slots, rest;
      if !overrun {
        slots', rest' := if stopped then slots else slots[i := child.value], child.rest;
      }
    }

    /** Puts a command into a slot. */
    method Fill(i: nat, c: CommandObject, ghost slots: seq<Command>, ghost child: Command)
      requires Valid() && i < index && slots == Children(index)
      requires c.Valid() && c.Repr !! Repr && child == c.Tree()
      modifies this`Repr, commands
      ensures Valid() && Repr == old(Repr) + c.Repr
      ensures Children(index) == slots[i := child]
    {
      ChildrenAt(index);
      commands[i] := c;
      Repr := Repr + c.Repr;
      ChildrenAre(index, slots[i := child]);
    }
  }

  /** Writes a command to a new buffer. */
  method Written(c: CommandObject, ghost tree: Command) returns (bb: BinaryBuffer)
    requires c.Valid() && tree == c.Tree() && Encodable(tree)
    ensures fresh(bb) && bb.Valid() && bb.Unread() == Encode(tree)
  {
    bb := new BinaryBuffer();
    c.Write(bb, tree);
    assert bb.Data() == [] + Encode(tree);
    assert [] + Encode(tree) == Encode(tree) && bb.buffer[..|bb.buffer|] == bb.buffer[0..];
  }

  /** Writes a command to a new buffer and reads it back into another command of its class, whatever
      that held before. */
  method Stream(reg: Registry, c: CommandObject, copy: CommandObject, ghost tree: Command)
    requires ProperRegistry(reg) && c.Valid() && tree == c.Tree() && Encodable(tree) && Registered(reg, tree)
    requires copy.Valid() && copy.info == c.info
    modifies copy, copy.commands
    ensures copy.Valid() && copy.Tree() == tree
  {
    var bb := Written(c, tree);
    ReadInto(reg, bb, copy, tree);
  }

  method ReadInto(reg: Registry, bb: BinaryBuffer, copy: CommandObject, ghost tree: Command)
    requires ProperRegistry(reg) && Encodable(tree) && Registered(reg, tree)
    requires bb.Valid() && bb.Unread() == Encode(tree) && bb !in copy.Repr
    requires copy.Valid() && copy.info == tree.Info()
    modifies copy, copy.commands, bb
    ensures copy.Valid() && copy.Tree() == tree
  {
    EncodedSize(tree);
    var seen := bb.Read(INFO_SIZE);
    ReadsBack(reg, tree, copy.Tree(), copy.Slots());
    var overrun := copy.Read(reg, bb, Done(tree, []));
  }

  lemma EncodedSize(c: Command)
    requires Encodable(c)
    ensures |Encode(c)| >= INFO_SIZE
  {
    LibraryInfosValid();
  }

  lemma ReadsBack(reg: Registry, c: Command, before: Command, slots: seq<Command>)
    requires Encodable(c) && Registered(reg, c) && !before.Missing? && before.Info() == c.Info()
    requires c.Composite? ==> before.Composite? && |slots| == MAX_COMMANDS
    requires c.Leaf? ==> before.Leaf?
    ensures ReadOver(reg, before, slots, Encode(c)[INFO_SIZE..]) == Done(c, [])
  {
    LibraryInfosValid();
    EncodedSize(c);
    SplitConcat(c.Info().Bytes(), EncodeBody(c));
    assert EncodeBody(c) + [] == EncodeBody(c);
    RoundTripOver(reg, c, before, slots, []);
  }

  /** The classes a registry makes are proper ones. */
  ghost predicate ProperRegistry(reg: Registry) {
    forall name <- reg.classes :: reg.classes[name].Valid()
  }

  lemma AppendFour<A>(s: seq<A>, a: seq<A>, b: seq<A>, c: seq<A>, d: seq<A>)
    ensures s + a + b + c + d == s + (a + (b + (c + d)))
  {
  }

  ghost predicate AllComplete(cs: seq<Command>) {
    forall k :: 0 <= k < |cs| ==> Complete(cs[k])
  }

  /** A run of a list of commands seen after its first commands are done. */
  ghost function Resume<S>(acts: Runs.Actions<S>, done: seq<Command>, todo: seq<Command>, s: S, threw: bool)
    : Runs.ListOutcome<S>
    requires AllComplete(todo)
  {
    if threw then Runs.ListOutcome(done + todo, s, true)
    else
      var r := Runs.RunAll(acts, todo, s);
      Runs.ListOutcome(done + r.commands, r.state, r.threw)
  }

  lemma ResumeDone<S>(acts: Runs.Actions<S>, done: seq<Command>, todo: seq<Command>, s: S, threw: bool)
    requires AllComplete(todo)
    requires !threw ==> todo == []
    ensures Resume(acts, done, todo, s, threw) == Runs.ListOutcome(done + todo, s, threw)
  {
  }

  lemma ResumeStep<S>(acts: Runs.Actions<S>, done: seq<Command>, todo: seq<Command>, s: S)
    requires todo != [] && AllComplete(todo)
    ensures AllComplete(todo[1..])
    ensures var r := Runs.Run(acts, todo[0], s);
      Resume(acts, done, todo, s, false) == Resume(acts, done + [r.command], todo[1..], r.state, r.threw)
  {
    var r := Runs.Run(acts, todo[0], s);
    var others := Runs.RunAll(acts, todo[1..], r.state);
    assert done + ([r.command] + todo[1..]) == done + [r.command] + todo[1..];
    assert done + ([r.command] + others.commands) == done + [r.command] + others.commands;
  }

  ghost predicate AllEncodable(cs: seq<Command>) {
    forall k :: 0 <= k < |cs| ==> Encodable(cs[k])
  }

  lemma {:induction false} EncodeOneMore(cs: seq<Command>, i: nat)
    requires AllEncodable(cs) && i < |cs|
    ensures AllEncodable(cs[..i + 1]) && EncodeAll(cs[..i + 1]) == EncodeAll(cs[..i]) + Encode(cs[i])
  {
    var upTo, next := cs[..i], cs[..i + 1];
    if i > 0 {
      EncodeOneMore(cs[1..], i - 1);
      assert next[1..] == cs[1..][..i] && upTo[1..] == cs[1..][..i - 1] && cs[1..][i - 1] == cs[i];
      ConcatAssociates(Encode(cs[0]), EncodeAll(upTo[1..]), Encode(cs[i]));
    } else {
      assert next == [cs[0]] && EncodeAll(next[1..]) == [];
    }
  }
}
