/** Running and undoing a command tree, on values. */
module CommandRuns {
  import opened CommandTrees

  /** What the leaves of a program do. `run` gives the new state and whether the action threw, with
      whatever it had changed by then; `undo` is what the leaf's `_undo` does. */
  datatype Actions<!S> = Actions(run: (ClassInfo, Id, S) -> (S, bool), undo: (ClassInfo, Id, S) -> S)

  datatype Outcome<S> = Outcome(command: Command, state: S, threw: bool)

  datatype ListOutcome<S> = ListOutcome(commands: seq<Command>, state: S, threw: bool)

  /** `Command::run`: a command is marked successful only when its action did not throw. */
  function Run<S>(acts: Actions<S>, c: Command, s: S): (r: Outcome<S>)
    requires Complete(c)
    ensures Complete(r.command)
    decreases c, 0
  {
    match c
    case Leaf(info, id, ok) =>
      var (s', threw) := acts.run(info, id, s);
      Outcome(Leaf(info, id, if threw then ok else TRUE), s', threw)
    case Composite(id, ok, children) =>
      var r := RunAll(acts, children, s);
      Outcome(Composite(id, if r.threw then ok else TRUE, r.commands), r.state, r.threw)
  }

  /** `CompositeCommand::_run`: front to back, stopped by the first child that throws. */
  function RunAll<S>(acts: Actions<S>, cs: seq<Command>, s: S): (r: ListOutcome<S>)
    requires forall k :: 0 <= k < |cs| ==> Complete(cs[k])
    ensures |r.commands| == |cs| && forall k :: 0 <= k < |cs| ==> Complete(r.commands[k])
    decreases cs
  {
    if cs == [] then ListOutcome([], s, false)
    else
      var first := Run(acts, cs[0], s);
      if first.threw then ListOutcome([first.command] + cs[1..], first.state, true)
      else
        var others := RunAll(acts, cs[1..], first.state);
        ListOutcome([first.command] + others.commands, others.state, others.threw)
  }

  /** `Command::undo`: does nothing unless the command is marked successful. */
  function Undo<S>(acts: Actions<S>, c: Command, s: S): S
    requires Complete(c)
    decreases c, 0
  {
    if c.ok != TRUE then s
    else
      match c
      case Leaf(info, id, _) => acts.undo(info, id, s)
      case Composite(_, _, children) => UndoAll(acts, children, s)
  }

  /** `CompositeCommand::_undo`: also front to back. */
  function UndoAll<S>(acts: Actions<S>, cs: seq<Command>, s: S): S
    requires forall k :: 0 <= k < |cs| ==> Complete(cs[k])
    decreases cs
  {
    if cs == [] then s else UndoAll(acts, cs[1..], Undo(acts, cs[0], s))
  }

  // ---------- The leaves of a tree ----------

  datatype Action = Action(info: ClassInfo, id: Id)

  /** The leaf actions of a tree, in the order its composites visit them. */
  function Leaves(c: Command): seq<Action>
    decreases c, 0
  {
    match c
    case Missing => []
    case Leaf(info, id, _) => [Action(info, id)]
    case Composite(_, _, children) => LeavesOfAll(children)
  }

  function LeavesOfAll(cs: seq<Command>): seq<Action>
    decreases cs
  {
    if cs == [] then [] else Leaves(cs[0]) + LeavesOfAll(cs[1..])
  }

  /** Running a plain list of actions until one throws. */
  function RunActions<S>(acts: Actions<S>, xs: seq<Action>, s: S): (S, bool) {
    if xs == [] then (s, false)
    else
      var (s', threw) := acts.run(xs[0].info, xs[0].id, s);
      if threw then (s', true) else RunActions(acts, xs[1..], s')
  }

  function UndoActions<S>(acts: Actions<S>, xs: seq<Action>, s: S): S {
    if xs == [] then s else UndoActions(acts, xs[1..], acts.undo(xs[0].info, xs[0].id, s))
  }

  lemma {:induction false} RunActionsConcat<S>(acts: Actions<S>, xs: seq<Action>, ys: seq<Action>, s: S)
    ensures var (s', threw) := RunActions(acts, xs, s);
      RunActions(acts, xs + ys, s) == if threw then (s', true) else RunActions(acts, ys, s')
  {
    if xs == [] {
      assert xs + ys == ys;
    } else {
      assert (xs + ys)[1..] == xs[1..] + ys;
      RunActionsConcat(acts, xs[1..], ys, acts.run(xs[0].info, xs[0].id, s).0);
    }
  }

  lemma {:induction false} UndoActionsConcat<S>(acts: Actions<S>, xs: seq<Action>, ys: seq<Action>, s: S)
    ensures UndoActions(acts, xs + ys, s) == UndoActions(acts, ys, UndoActions(acts, xs, s))
  {
    if xs == [] {
      assert xs + ys == ys;
    } else {
      assert (xs + ys)[1..] == xs[1..] + ys;
      UndoActionsConcat(acts, xs[1..], ys, acts.undo(xs[0].info, xs[0].id, s));
    }
  }

  /** Every command of the tree, composites included, is marked successful. */
  predicate AllOk(c: Command) {
    !c.Missing? && c.ok == TRUE && (c.Composite? ==> forall k :: 0 <= k < |c.children| ==> AllOk(c.children[k]))
  }

  /** Whatever the nesting, a run is the run of the leaves, and keeps them. After a completed run
      every command of the tree is marked; a run that throws leaves the root's own mark alone. */
  lemma {:induction false} RunIsLeaves<S>(acts: Actions<S>, c: Command, s: S)
    requires Complete(c)
    ensures var r := Run(acts, c, s);
      && (r.state, r.threw) == RunActions(acts, Leaves(c), s)
      && Leaves(r.command) == Leaves(c)
      && (!r.threw ==> AllOk(r.command))
      && (r.threw ==> r.command.ok == c.ok)
    decreases c, 0
  {
    if c.Composite? {
      RunAllIsLeaves(acts, c.children, s);
    } else {
      var (s', threw) := acts.run(c.info, c.id, s);
      assert RunActions(acts, Leaves(c)[1..], s') == (s', false);
    }
  }

  lemma {:induction false} RunAllIsLeaves<S>(acts: Actions<S>, cs: seq<Command>, s: S)
    requires forall k :: 0 <= k < |cs| ==> Complete(cs[k])
    ensures var r := RunAll(acts, cs, s);
      && (r.state, r.threw) == RunActions(acts, LeavesOfAll(cs), s)
      && LeavesOfAll(r.commands) == LeavesOfAll(cs)
      && (!r.threw ==> forall k :: 0 <= k < |cs| ==> AllOk(r.commands[k]))
    decreases cs
  {
    if cs != [] {
      var first := Run(acts, cs[0], s);
      RunIsLeaves(acts, cs[0], s);
      RunActionsConcat(acts, Leaves(cs[0]), LeavesOfAll(cs[1..]), s);
      RunAllIsLeaves(acts, cs[1..], first.state);
      var r := RunAll(acts, cs, s);
      assert r.commands[1..] == if first.threw then cs[1..] else RunAll(acts, cs[1..], first.state).commands;
    }
  }

  /** Where a list of commands stops: what is before the failing command is marked all through, what
      is after it is as it was. */
  lemma {:induction false} RunAllStops<S>(acts: Actions<S>, cs: seq<Command>, s: S) returns (k: nat, before: S)
    requires (forall i :: 0 <= i < |cs| ==> Complete(cs[i])) && RunAll(acts, cs, s).threw
    ensures k < |cs| && RunActions(acts, LeavesOfAll(cs[..k]), s) == (before, false)
    ensures var r := RunAll(acts, cs, s); var failed := Run(acts, cs[k], before);
      && (forall i :: 0 <= i < k ==> AllOk(r.commands[i]))
      && failed.threw && r.commands[k] == failed.command && r.state == failed.state
      && r.commands[k + 1..] == cs[k + 1..]
    decreases cs
  {
    var first := Run(acts, cs[0], s);
    RunIsLeaves(acts, cs[0], s);
    if first.threw {
      k, before := 0, s;
    } else {
      k, before := RunAllStops(acts, cs[1..], first.state);
      RunActionsConcat(acts, Leaves(cs[0]), LeavesOfAll(cs[1..][..k]), s);
      assert cs[..k + 1][1..] == cs[1..][..k];
      k := k + 1;
    }
  }

  /** The leaves that are marked themselves and by every composite above them. */
  function MarkedLeaves(c: Command): seq<Action>
    decreases c, 0
  {
    if c.Missing? || c.ok != TRUE then []
    else if c.Leaf? then [Action(c.info, c.id)]
    else MarkedLeavesOfAll(c.children)
  }

  function MarkedLeavesOfAll(cs: seq<Command>): seq<Action>
    decreases cs
  {
    if cs == [] then [] else MarkedLeaves(cs[0]) + MarkedLeavesOfAll(cs[1..])
  }

  /** Undo takes back exactly these leaves, front to back. */
  lemma {:induction false} UndoIsMarkedLeaves<S>(acts: Actions<S>, c: Command, s: S)
    requires Complete(c)
    ensures Undo(acts, c, s) == UndoActions(acts, MarkedLeaves(c), s)
    decreases c, 0
  {
    if c.ok == TRUE && c.Composite? {
      UndoAllIsMarkedLeaves(acts, c.children, s);
    } else if c.ok == TRUE {
      var s' := acts.undo(c.info, c.id, s);
      assert UndoActions(acts, MarkedLeaves(c)[1..], s') == s';
    }
  }

  lemma {:induction false} UndoAllIsMarkedLeaves<S>(acts: Actions<S>, cs: seq<Command>, s: S)
    requires forall k :: 0 <= k < |cs| ==> Complete(cs[k])
    ensures UndoAll(acts, cs, s) == UndoActions(acts, MarkedLeavesOfAll(cs), s)
    decreases cs
  {
    if cs != [] {
      UndoIsMarkedLeaves(acts, cs[0], s);
      UndoAllIsMarkedLeaves(acts, cs[1..], Undo(acts, cs[0], s));
      UndoActionsConcat(acts, MarkedLeaves(cs[0]), MarkedLeavesOfAll(cs[1..]), s);
    }
  }

  lemma {:induction false} AllOkIsMarked(c: Command)
    requires AllOk(c)
    ensures MarkedLeaves(c) == Leaves(c)
    decreases c, 0
  {
    if c.Composite? {
      AllOkAreMarked(c.children);
    }
  }

  lemma {:induction false} AllOkAreMarked(cs: seq<Command>)
    requires forall k :: 0 <= k < |cs| ==> AllOk(cs[k])
    ensures MarkedLeavesOfAll(cs) == LeavesOfAll(cs)
    decreases cs
  {
    if cs != [] {
      AllOkIsMarked(cs[0]);
      AllOkAreMarked(cs[1..]);
    }
  }

  lemma UndoIsLeaves<S>(acts: Actions<S>, c: Command, s: S)
    requires Complete(c) && AllOk(c)
    ensures Undo(acts, c, s) == UndoActions(acts, Leaves(c), s)
  {
    UndoIsMarkedLeaves(acts, c, s);
    AllOkIsMarked(c);
  }

  // ---------- Undo after a completed run ----------

  /** The undo of `x` takes back its own completed run. */
  ghost predicate Invertible<S(!new)>(acts: Actions<S>, x: Action) {
    forall s :: var (s', threw) := acts.run(x.info, x.id, s); !threw ==> acts.undo(x.info, x.id, s') == s
  }

  /** Undoing `x` before or after running `y` is the same, when that run completes. */
  ghost predicate UndoCommutes<S(!new)>(acts: Actions<S>, x: Action, y: Action) {
    forall s :: var (s', threw) := acts.run(y.info, y.id, s);
      !threw ==> acts.run(y.info, y.id, acts.undo(x.info, x.id, s)) == (acts.undo(x.info, x.id, s'), false)
  }

  ghost predicate Undoable<S(!new)>(acts: Actions<S>, xs: seq<Action>) {
    && (forall i :: 0 <= i < |xs| ==> Invertible(acts, xs[i]))
    && (forall i, j :: 0 <= i < j < |xs| ==> UndoCommutes(acts, xs[i], xs[j]))
  }

  /** An undo that commutes with every later run can be moved in front of all of them. */
  lemma {:induction false} UndoMovesForward<S(!new)>(acts: Actions<S>, x: Action, ys: seq<Action>, s: S)
    requires forall j :: 0 <= j < |ys| ==> UndoCommutes(acts, x, ys[j])
    requires !RunActions(acts, ys, s).1
    ensures RunActions(acts, ys, acts.undo(x.info, x.id, s))
      == (acts.undo(x.info, x.id, RunActions(acts, ys, s).0), false)
  {
    if ys != [] {
      assert UndoCommutes(acts, x, ys[0]);
      UndoMovesForward(acts, x, ys[1..], acts.run(ys[0].info, ys[0].id, s).0);
    }
  }

  lemma {:induction false} UndoRestoresActions<S(!new)>(acts: Actions<S>, xs: seq<Action>, s: S)
    requires Undoable(acts, xs) && !RunActions(acts, xs, s).1
    ensures UndoActions(acts, xs, RunActions(acts, xs, s).0) == s
  {
    if xs != [] {
      var x, ys := xs[0], xs[1..];
      var s' := acts.run(x.info, x.id, s).0;
      assert Invertible(acts, x);
      UndoMovesForward(acts, x, ys, s');
      UndoRestoresActions(acts, ys, s);
    }
  }

  /** Although undo walks front to back, one undo after a completed run restores the state of a
      tree of any nesting whose leaves are invertible and whose undos commute with later runs. */
  lemma UndoRestores<S(!new)>(acts: Actions<S>, c: Command, s: S)
    requires Complete(c) && Undoable(acts, Leaves(c)) && !Run(acts, c, s).threw
    ensures Undo(acts, Run(acts, c, s).command, Run(acts, c, s).state) == s
  {
    RunIsLeaves(acts, c, s);
    UndoIsLeaves(acts, Run(acts, c, s).command, Run(acts, c, s).state);
    UndoRestoresActions(acts, Leaves(c), s);
  }

  // ---------- When front to back is right ----------

  /** Every run of `x` completes, and its undo is the inverse of the run. */
  ghost predicate Bijective<S(!new)>(acts: Actions<S>, x: Action) {
    forall s ::
      && acts.undo(x.info, x.id, acts.run(x.info, x.id, s).0) == s
      && acts.run(x.info, x.id, acts.undo(x.info, x.id, s)) == (s, false)
      && !acts.run(x.info, x.id, s).1
  }

  /** Running `x` and `y` and undoing both in the same order restores every state. */
  ghost predicate PairUndone<S(!new)>(acts: Actions<S>, x: Action, y: Action) {
    forall s :: UndoActions(acts, [x, y], RunActions(acts, [x, y], s).0) == s
  }

  lemma PairSteps<S(!new)>(acts: Actions<S>, x: Action, y: Action, s: S)
    requires Bijective(acts, x) && Bijective(acts, y)
    ensures RunActions(acts, [x, y], s) ==
      (acts.run(y.info, y.id, acts.run(x.info, x.id, s).0).0, false)
    ensures UndoActions(acts, [x, y], s) == acts.undo(y.info, y.id, acts.undo(x.info, x.id, s))
  {
    assert [x, y][1..] == [y] && [y][1..] == [];
    var s' := acts.run(x.info, x.id, s).0;
    assert RunActions(acts, [y], s') == (acts.run(y.info, y.id, s').0, false);
    var t := acts.undo(x.info, x.id, s);
    assert UndoActions(acts, [y], t) == acts.undo(y.info, y.id, t);
  }

  lemma PairUndoneCommutes<S(!new)>(acts: Actions<S>, x: Action, y: Action)
    requires Bijective(acts, x) && Bijective(acts, y) && PairUndone(acts, x, y)
    ensures UndoCommutes(acts, x, y)
  {
    forall s ensures acts.run(y.info, y.id, acts.undo(x.info, x.id, s))
        == (acts.undo(x.info, x.id, acts.run(y.info, y.id, s).0), false)
    {
      var t := acts.undo(x.info, x.id, s);
      PairSteps(acts, x, y, t);
      PairSteps(acts, x, y, acts.run(y.info, y.id, s).0);
      assert UndoActions(acts, [x, y], RunActions(acts, [x, y], t).0) == t;
    }
  }

  lemma CommutingPairUndone<S(!new)>(acts: Actions<S>, x: Action, y: Action)
    requires Bijective(acts, x) && Bijective(acts, y) && UndoCommutes(acts, x, y)
    ensures PairUndone(acts, x, y)
  {
    forall s ensures UndoActions(acts, [x, y], RunActions(acts, [x, y], s).0) == s {
      PairSteps(acts, x, y, s);
      PairSteps(acts, x, y, RunActions(acts, [x, y], s).0);
    }
  }

  ghost predicate AllBijective<S(!new)>(acts: Actions<S>, xs: seq<Action>) {
    forall i :: 0 <= i < |xs| ==> Bijective(acts, xs[i])
  }

  /** Undoing in the order of the runs is right for every pair of the actions. */
  ghost predicate PairsUndone<S(!new)>(acts: Actions<S>, xs: seq<Action>) {
    forall i, j :: 0 <= i < j < |xs| ==> PairUndone(acts, xs[i], xs[j])
  }

  lemma UndoableIsPairwise<S(!new)>(acts: Actions<S>, xs: seq<Action>)
    requires AllBijective(acts, xs)
    ensures Undoable(acts, xs) <==> PairsUndone(acts, xs)
  {
    forall i, j | 0 <= i < j < |xs|
      ensures UndoCommutes(acts, xs[i], xs[j]) <==> PairUndone(acts, xs[i], xs[j])
    {
      assert Bijective(acts, xs[i]) && Bijective(acts, xs[j]);
      if PairUndone(acts, xs[i], xs[j]) {
        PairUndoneCommutes(acts, xs[i], xs[j]);
      }
      if UndoCommutes(acts, xs[i], xs[j]) {
        CommutingPairUndone(acts, xs[i], xs[j]);
      }
    }
    forall i | 0 <= i < |xs| ensures Invertible(acts, xs[i]) {
      assert Bijective(acts, xs[i]);
    }
  }

  /** `ys` is `xs` with some actions left out. */
  predicate IsPart(ys: seq<Action>, xs: seq<Action>) {
    if ys == [] then true
    else if xs == [] then false
    else (ys[0] == xs[0] && IsPart(ys[1..], xs[1..])) || IsPart(ys, xs[1..])
  }

  /** One run and one undo of the tree end in the state they began in. */
  ghost predicate Restored<S(!new)>(acts: Actions<S>, c: Command)
    requires Complete(c)
  {
    forall s :: !Run(acts, c, s).threw ==> Undo(acts, Run(acts, c, s).command, Run(acts, c, s).state) == s
  }

  lemma {:induction false} PartOfPositions(ys: seq<Action>, xs: seq<Action>) returns (at: seq<nat>)
    requires IsPart(ys, xs)
    ensures |at| == |ys| && forall i :: 0 <= i < |ys| ==> at[i] < |xs| && xs[at[i]] == ys[i]
    ensures forall i, j :: 0 <= i < j < |ys| ==> at[i] < at[j]
  {
    if ys == [] {
      at := [];
    } else if ys[0] == xs[0] && IsPart(ys[1..], xs[1..]) {
      var rest := PartOfPositions(ys[1..], xs[1..]);
      at := [0] + seq(|rest|, i requires 0 <= i < |rest| => rest[i] + 1);
    } else {
      var rest := PartOfPositions(ys, xs[1..]);
      at := seq(|rest|, i requires 0 <= i < |rest| => rest[i] + 1);
    }
  }

  lemma {:induction false} PairIsPart(xs: seq<Action>, i: nat, j: nat)
    requires i < j < |xs|
    ensures IsPart([xs[i], xs[j]], xs)
  {
    if i > 0 {
      PairIsPart(xs[1..], i - 1, j - 1);
    } else {
      assert [xs[i], xs[j]][1..] == [xs[j]];
      SingleIsPart(xs[1..], j - 1);
    }
  }

  lemma {:induction false} SingleIsPart(xs: seq<Action>, j: nat)
    requires j < |xs|
    ensures IsPart([xs[j]], xs)
  {
    assert [xs[j]][1..] == [];
    if j > 0 {
      SingleIsPart(xs[1..], j - 1);
    }
  }

  /** The composite that runs two leaves. */
  function PairOf(x: Action, y: Action): Command {
    Composite(NULL_ID, UNKNOWN, [Leaf(x.info, x.id, UNKNOWN), Leaf(y.info, y.id, UNKNOWN)])
  }

  lemma LeavesOfPair(x: Action, y: Action)
    ensures Complete(PairOf(x, y)) && Leaves(PairOf(x, y)) == [x, y]
  {
    var a, b := Leaf(x.info, x.id, UNKNOWN), Leaf(y.info, y.id, UNKNOWN);
    assert [a, b][1..] == [b] && [b][1..] == [];
    assert LeavesOfAll([b]) == Leaves(b) + LeavesOfAll([]);
    assert LeavesOfAll([a, b]) == Leaves(a) + LeavesOfAll([b]);
  }

  lemma RestoredPair<S(!new)>(acts: Actions<S>, x: Action, y: Action)
    requires Bijective(acts, x) && Bijective(acts, y)
    requires Complete(PairOf(x, y)) && Restored(acts, PairOf(x, y))
    ensures PairUndone(acts, x, y)
  {
    var c := PairOf(x, y);
    LeavesOfPair(x, y);
    forall s ensures UndoActions(acts, [x, y], RunActions(acts, [x, y], s).0) == s {
      PairSteps(acts, x, y, s);
      RunIsLeaves(acts, c, s);
      UndoIsLeaves(acts, Run(acts, c, s).command, Run(acts, c, s).state);
    }
  }

  lemma {:induction false} PartUndoable<S(!new)>(acts: Actions<S>, ys: seq<Action>, xs: seq<Action>)
    requires IsPart(ys, xs) && Undoable(acts, xs)
    ensures Undoable(acts, ys)
  {
    var at := PartOfPositions(ys, xs);
    forall i | 0 <= i < |ys| ensures Invertible(acts, ys[i]) {
      assert Invertible(acts, xs[at[i]]);
    }
    forall i, j | 0 <= i < j < |ys| ensures UndoCommutes(acts, ys[i], ys[j]) {
      assert UndoCommutes(acts, xs[at[i]], xs[at[j]]);
    }
  }

  lemma PartsRestored<S(!new)>(acts: Actions<S>, xs: seq<Action>, c: Command)
    requires Undoable(acts, xs) && Complete(c) && IsPart(Leaves(c), xs)
    ensures Restored(acts, c)
  {
    PartUndoable(acts, Leaves(c), xs);
    forall s | !Run(acts, c, s).threw
      ensures Undo(acts, Run(acts, c, s).command, Run(acts, c, s).state) == s
    {
      UndoRestores(acts, c, s);
    }
  }

  /** Every tree made of some of these leaves, in this order, is restored. */
  ghost predicate AllRestored<S(!new)>(acts: Actions<S>, xs: seq<Action>) {
    forall c :: Complete(c) && IsPart(Leaves(c), xs) ==> Restored(acts, c)
  }

  lemma RestoredPairs<S(!new)>(acts: Actions<S>, xs: seq<Action>, i: nat, j: nat)
    requires AllBijective(acts, xs) && AllRestored(acts, xs) && i < j < |xs|
    ensures PairUndone(acts, xs[i], xs[j])
  {
    LeavesOfPair(xs[i], xs[j]);
    PairIsPart(xs, i, j);
    assert Bijective(acts, xs[i]) && Bijective(acts, xs[j]);
    RestoredPair(acts, xs[i], xs[j]);
  }

  /** Front-to-back undo restores every tree, of any nesting, made of some of these leaves in this
      order if and only if it restores each pair of them. */
  lemma UndoRestoresExactly<S(!new)>(acts: Actions<S>, xs: seq<Action>)
    requires AllBijective(acts, xs)
    ensures AllRestored(acts, xs) <==> PairsUndone(acts, xs)
  {
    UndoableIsPairwise(acts, xs);
    if PairsUndone(acts, xs) {
      forall c | Complete(c) && IsPart(Leaves(c), xs) ensures Restored(acts, c) {
        PartsRestored(acts, xs, c);
      }
    }
    if AllRestored(acts, xs) {
      forall i, j | 0 <= i < j < |xs| ensures PairUndone(acts, xs[i], xs[j]) {
        RestoredPairs(acts, xs, i, j);
      }
    }
  }

  // ---------- After a failed run ----------

  /** If a child fails, nothing is rolled back: the state is the completed runs of the leaves before
      the failing one followed by what that leaf did, the root keeps its mark, and undoing a root
      that is not marked from an earlier run does nothing. */
  lemma {:induction false} FailedRunIsNotRolledBack<S>(acts: Actions<S>, c: Command, s: S) returns (k: nat)
    requires Complete(c) && Run(acts, c, s).threw
    ensures k < |Leaves(c)|
    ensures var before := RunActions(acts, Leaves(c)[..k], s);
      !before.1 && acts.run(Leaves(c)[k].info, Leaves(c)[k].id, before.0) == (Run(acts, c, s).state, true)
    ensures Run(acts, c, s).command.ok == c.ok
    ensures c.ok != TRUE ==> Undo(acts, Run(acts, c, s).command, Run(acts, c, s).state) == Run(acts, c, s).state
  {
    RunIsLeaves(acts, c, s);
    k := FirstThrow(acts, Leaves(c), s);
  }

  /** A rerun takes no mark away. */
  lemma {:induction false} RunKeepsMarks<S>(acts: Actions<S>, c: Command, s: S)
    requires Complete(c) && AllOk(c)
    ensures AllOk(Run(acts, c, s).command)
    decreases c, 0
  {
    if c.Composite? {
      RunAllKeepsMarks(acts, c.children, s);
    }
  }

  lemma {:induction false} RunAllKeepsMarks<S>(acts: Actions<S>, cs: seq<Command>, s: S)
    requires forall k :: 0 <= k < |cs| ==> Complete(cs[k]) && AllOk(cs[k])
    ensures forall k :: 0 <= k < |cs| ==> AllOk(RunAll(acts, cs, s).commands[k])
    decreases cs
  {
    if cs != [] {
      RunKeepsMarks(acts, cs[0], s);
      RunAllKeepsMarks(acts, cs[1..], Run(acts, cs[0], s).state);
    }
  }

  /** After an earlier completed run a failed rerun is undone too far: the root is still marked, so
      undo takes back every leaf, those that were not rerun included. */
  lemma FailedRerunUndoesAll<S>(acts: Actions<S>, c: Command, s: S)
    requires Complete(c) && AllOk(c) && Run(acts, c, s).threw
    ensures var r := Run(acts, c, s);
      r.command.ok == TRUE && Undo(acts, r.command, r.state) == UndoActions(acts, Leaves(c), r.state)
  {
    RunKeepsMarks(acts, c, s);
    RunIsLeaves(acts, c, s);
    UndoIsLeaves(acts, Run(acts, c, s).command, Run(acts, c, s).state);
  }

  /** A leaf that throws has changed nothing. */
  ghost predicate Clean<S(!new)>(acts: Actions<S>, x: Action) {
    forall s :: acts.run(x.info, x.id, s).1 ==> acts.run(x.info, x.id, s).0 == s
  }

  /** No leaf throws in a state that the completed leaves before it have changed. */
  ghost predicate ThrowsOnlyUnchanged<S(!new)>(acts: Actions<S>, xs: seq<Action>) {
    forall k, s :: 0 <= k < |xs| ==> ThrowsUnchanged(acts, xs, k, s)
  }

  ghost predicate ThrowsUnchanged<S(!new)>(acts: Actions<S>, xs: seq<Action>, k: nat, s: S)
    requires k < |xs|
  {
    var before := RunActions(acts, xs[..k], s);
    !before.1 && acts.run(xs[k].info, xs[k].id, before.0).1 ==> before.0 == s
  }

  ghost predicate RollsBack<S(!new)>(acts: Actions<S>, c: Command)
    requires Complete(c)
  {
    forall s :: Run(acts, c, s).threw ==> Run(acts, c, s).state == s
  }

  lemma {:induction false} ThrowAfter<S>(acts: Actions<S>, xs: seq<Action>, k: nat, s: S)
    requires k < |xs| && !RunActions(acts, xs[..k], s).1
    requires acts.run(xs[k].info, xs[k].id, RunActions(acts, xs[..k], s).0).1
    ensures RunActions(acts, xs, s) == acts.run(xs[k].info, xs[k].id, RunActions(acts, xs[..k], s).0)
  {
    var y, s' := xs[k], RunActions(acts, xs[..k], s).0;
    assert xs == xs[..k] + xs[k..] && xs[k..][0] == y;
    RunActionsConcat(acts, xs[..k], xs[k..], s);
    assert RunActions(acts, xs[k..], s') == acts.run(y.info, y.id, s');
  }

  /** The rollback the class comment promises happens for every state if and only if no leaf throws
      in a state that the completed leaves before it have changed. */
  lemma RollsBackExactly<S(!new)>(acts: Actions<S>, c: Command)
    requires Complete(c) && forall k :: 0 <= k < |Leaves(c)| ==> Clean(acts, Leaves(c)[k])
    ensures RollsBack(acts, c) <==> ThrowsOnlyUnchanged(acts, Leaves(c))
  {
    var xs := Leaves(c);
    if ThrowsOnlyUnchanged(acts, xs) {
      forall s | Run(acts, c, s).threw ensures Run(acts, c, s).state == s {
        var k := FailedRunIsNotRolledBack(acts, c, s);
        assert ThrowsUnchanged(acts, xs, k, s) && Clean(acts, xs[k]);
      }
    }
    if RollsBack(acts, c) {
      forall k, s | 0 <= k < |xs| ensures ThrowsUnchanged(acts, xs, k, s) {
        var before := RunActions(acts, xs[..k], s);
        if !before.1 && acts.run(xs[k].info, xs[k].id, before.0).1 {
          assert Clean(acts, xs[k]);
          ThrowAfter(acts, xs, k, s);
          RunIsLeaves(acts, c, s);
        }
      }
    }
  }

  /** Where `x` has just changed the state, `y` does not throw. */
  ghost predicate NoThrowAfterChange<S(!new)>(acts: Actions<S>, x: Action, y: Action) {
    forall s :: var (s', threw) := acts.run(x.info, x.id, s);
      !threw && s' != s ==> !acts.run(y.info, y.id, s').1
  }

  ghost predicate PairsRollBack<S(!new)>(acts: Actions<S>, xs: seq<Action>) {
    forall i, j :: 0 <= i < j < |xs| ==> NoThrowAfterChange(acts, xs[i], xs[j])
  }

  ghost predicate AllClean<S(!new)>(acts: Actions<S>, xs: seq<Action>) {
    forall k :: 0 <= k < |xs| ==> Clean(acts, xs[k])
  }

  /** A completed run that changed the state has a last action that changed it. */
  lemma {:induction false} LastChange<S>(acts: Actions<S>, xs: seq<Action>, s: S) returns (i: nat, before: S)
    requires !RunActions(acts, xs, s).1 && RunActions(acts, xs, s).0 != s
    ensures i < |xs| && before != RunActions(acts, xs, s).0
    ensures acts.run(xs[i].info, xs[i].id, before) == (RunActions(acts, xs, s).0, false)
  {
    var s' := acts.run(xs[0].info, xs[0].id, s).0;
    if RunActions(acts, xs[1..], s').0 == s' {
      i, before := 0, s;
    } else {
      var k;
      k, before := LastChange(acts, xs[1..], s');
      i := k + 1;
    }
  }

  lemma PairsThrowUnchanged<S(!new)>(acts: Actions<S>, xs: seq<Action>)
    requires PairsRollBack(acts, xs)
    ensures ThrowsOnlyUnchanged(acts, xs)
  {
    forall k, s | 0 <= k < |xs| ensures ThrowsUnchanged(acts, xs, k, s) {
      var r := RunActions(acts, xs[..k], s);
      if !r.1 && r.0 != s {
        var i, before := LastChange(acts, xs[..k], s);
        assert NoThrowAfterChange(acts, xs[i], xs[k]);
      }
    }
  }

  /** The two-leaf tree of `x` and `y` shows whether `y` may throw after a change by `x`. */
  lemma PairRollsBack<S(!new)>(acts: Actions<S>, x: Action, y: Action)
    requires Clean(acts, x) && Clean(acts, y)
    requires Complete(PairOf(x, y)) && RollsBack(acts, PairOf(x, y))
    ensures NoThrowAfterChange(acts, x, y)
  {
    LeavesOfPair(x, y);
    forall k | 0 <= k < |Leaves(PairOf(x, y))| ensures Clean(acts, Leaves(PairOf(x, y))[k]) {
    }
    RollsBackExactly(acts, PairOf(x, y));
    forall s ensures var (s', threw) := acts.run(x.info, x.id, s);
      !threw && s' != s ==> !acts.run(y.info, y.id, s').1
    {
      assert [x, y][..1] == [x] && [x][1..] == [];
      assert ThrowsUnchanged(acts, [x, y], 1, s);
      var (s', threw) := acts.run(x.info, x.id, s);
      assert !threw ==> RunActions(acts, [x], s) == (s', false);
    }
  }

  /** Every tree made of some of these leaves, in this order, rolls back. */
  ghost predicate AllRollBack<S(!new)>(acts: Actions<S>, xs: seq<Action>) {
    forall c :: Complete(c) && IsPart(Leaves(c), xs) ==> RollsBack(acts, c)
  }

  lemma PartRollsBack<S(!new)>(acts: Actions<S>, xs: seq<Action>, c: Command)
    requires AllClean(acts, xs) && PairsRollBack(acts, xs) && Complete(c) && IsPart(Leaves(c), xs)
    ensures RollsBack(acts, c)
  {
    var ys := Leaves(c);
    var at := PartOfPositions(ys, xs);
    forall k | 0 <= k < |ys| ensures Clean(acts, ys[k]) {
      assert Clean(acts, xs[at[k]]);
    }
    forall i, j | 0 <= i < j < |ys| ensures NoThrowAfterChange(acts, ys[i], ys[j]) {
      assert NoThrowAfterChange(acts, xs[at[i]], xs[at[j]]);
    }
    PairsThrowUnchanged(acts, ys);
    RollsBackExactly(acts, c);
  }

  lemma RollingBackPairs<S(!new)>(acts: Actions<S>, xs: seq<Action>, i: nat, j: nat)
    requires AllClean(acts, xs) && AllRollBack(acts, xs) && i < j < |xs|
    ensures NoThrowAfterChange(acts, xs[i], xs[j])
  {
    LeavesOfPair(xs[i], xs[j]);
    PairIsPart(xs, i, j);
    PairRollsBack(acts, xs[i], xs[j]);
  }

  /** For leaves that change nothing when they throw, every tree made of some of them in this order
      rolls back if and only if none of them throws where an earlier one has just changed the state. */
  lemma RollBackIsPairwise<S(!new)>(acts: Actions<S>, xs: seq<Action>)
    requires AllClean(acts, xs)
    ensures AllRollBack(acts, xs) <==> PairsRollBack(acts, xs)
  {
    if PairsRollBack(acts, xs) {
      forall c | Complete(c) && IsPart(Leaves(c), xs) ensures RollsBack(acts, c) {
        PartRollsBack(acts, xs, c);
      }
    }
    if AllRollBack(acts, xs) {
      forall i, j | 0 <= i < j < |xs| ensures NoThrowAfterChange(acts, xs[i], xs[j]) {
        RollingBackPairs(acts, xs, i, j);
      }
    }
  }

  /** A tree in which only the first leaf can throw always rolls back. */
  lemma FirstLeafRollsBack<S(!new)>(acts: Actions<S>, c: Command)
    requires Complete(c) && forall k :: 0 <= k < |Leaves(c)| ==> Clean(acts, Leaves(c)[k])
    requires forall k, s :: 0 < k < |Leaves(c)| ==> !acts.run(Leaves(c)[k].info, Leaves(c)[k].id, s).1
    ensures RollsBack(acts, c)
  {
    var xs := Leaves(c);
    forall k, s | 0 <= k < |xs| ensures ThrowsUnchanged(acts, xs, k, s) {
      assert k == 0 ==> xs[..k] == [];
    }
    RollsBackExactly(acts, c);
  }

  lemma {:induction false} FirstThrow<S>(acts: Actions<S>, xs: seq<Action>, s: S) returns (k: nat)
    requires RunActions(acts, xs, s).1
    ensures k < |xs| && !RunActions(acts, xs[..k], s).1
    ensures acts.run(xs[k].info, xs[k].id, RunActions(acts, xs[..k], s).0) == RunActions(acts, xs, s)
  {
    var (s', threw) := acts.run(xs[0].info, xs[0].id, s);
    if threw {
      k := 0;
    } else {
      var k' := FirstThrow(acts, xs[1..], s');
      k := k' + 1;
      assert xs[..k][1..] == xs[1..][..k'];
    }
  }

  /** An increment followed by a leaf that throws: run from 0 the composite fails, the increment
      stays, and undoing the composite does not take it back. */
  lemma IncrementStays() returns (acts: Actions<int>, c: Command)
    ensures Complete(c) && forall k :: 0 <= k < |Leaves(c)| ==> Clean(acts, Leaves(c)[k])
    ensures var r := Run(acts, c, 0); r.threw && r.state == 1 && Undo(acts, r.command, r.state) == 1
  {
    var run := (info: ClassInfo, id: Id, s: int) => if id == 1 then (s + 1, false) else (s, true);
    var undo := (info: ClassInfo, id: Id, s: int) => s - 1;
    acts := Actions(run, undo);
    var x, y := Action(NULL_COMMAND_INFO, 1), Action(NULL_COMMAND_INFO, 2);
    c := PairOf(x, y);
    LeavesOfPair(x, y);
    RunIsLeaves(acts, c, 0);
    assert [x, y][1..] == [y] && RunActions(acts, [y], 1) == (1, true);
  }

  /** The commuting condition matters: doubling and then incrementing 3 gives 7, and undoing front
      to back, halving first, gives 2. */
  lemma FrontToBackUndoCanMiss() returns (acts: Actions<int>, c: Command)
    ensures Complete(c) && (forall k :: 0 <= k < |Leaves(c)| ==> Invertible(acts, Leaves(c)[k]))
    ensures !Run(acts, c, 3).threw && Undo(acts, Run(acts, c, 3).command, Run(acts, c, 3).state) == 2
  {
    var run := (info: ClassInfo, id: Id, s: int) => (if id == 1 then 2 * s else s + 1, false);
    var undo := (info: ClassInfo, id: Id, s: int) => if id == 1 then s / 2 else s - 1;
    acts := Actions(run, undo);
    var double, increment := Leaf(NULL_COMMAND_INFO, 1, UNKNOWN), Leaf(NULL_COMMAND_INFO, 2, UNKNOWN);
    c := Composite(0, UNKNOWN, [double, increment]);
    var xs := [Action(NULL_COMMAND_INFO, 1), Action(NULL_COMMAND_INFO, 2)];
    assert Leaves(c) == xs by {
      assert [double, increment][1..] == [increment] && [increment][1..] == [];
      assert LeavesOfAll([increment]) == Leaves(increment) + LeavesOfAll([]);
      assert LeavesOfAll([double, increment]) == Leaves(double) + LeavesOfAll([increment]);
    }
    RunIsLeaves(acts, c, 3);
    assert RunActions(acts, xs, 3) == (7, false) by {
      assert xs[1..][1..] == [] && RunActions(acts, xs[1..], 6) == (7, false);
    }
    UndoIsLeaves(acts, Run(acts, c, 3).command, 7);
    assert UndoActions(acts, xs, 7) == 2 by {
      assert xs[1..][1..] == [] && UndoActions(acts, xs[1..], 3) == 2;
    }
  }
}
