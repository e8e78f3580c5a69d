/** The ON DELETE CASCADE foreign keys of `contact/db/contact_ddl.sql`, followed one after the other:
    a deleted row starts the actions of the keys that refer to it, and these delete rows in turn. The
    schema fixes no order, so any action that is pending may be taken next and its rows may go in any
    order; whatever they are, the same rows are gone at the end. */
module ForeignKeys {
  import opened Wrappers
  import opened Sequences
  import opened AuditedTables
  import opened DependentTables

  // ---------- Actions ----------

  datatype ForeignKey =
    | PhonesOfPerson
    | PhonesOfUnit
    | RolesOfUnit
    | RelationsOfPerson
    | RelationsOfUnit
    | AssignmentsOfPerson
    | AssignmentsOfRole
    | RulesOfOwner
    | RulesOfViewer
    | RulesOfViewerRole
    | RulesOfViewerUnit

  /** The deletion of a row with this key still has to be carried over this foreign key. */
  datatype Action = Action(fk: ForeignKey, key: Id)

  /** Whether a row refers to the key over the foreign key. */
  predicate PhoneHit(p: Phone, a: Action) {
    (a.fk.PhonesOfPerson? && p.person == Some(a.key)) || (a.fk.PhonesOfUnit? && p.unit == Some(a.key))
  }

  predicate RoleHit(r: Role, a: Action) {
    a.fk.RolesOfUnit? && r.unit == Some(a.key)
  }

  predicate RelationHit(r: Relation, a: Action) {
    (a.fk.RelationsOfPerson? && r.person == a.key) || (a.fk.RelationsOfUnit? && r.unit == a.key)
  }

  predicate AssignmentHit(x: Assignment, a: Action) {
    (a.fk.AssignmentsOfPerson? && x.person == a.key) || (a.fk.AssignmentsOfRole? && x.role == a.key)
  }

  predicate RuleHit(r: Rule, a: Action) {
    || (a.fk.RulesOfOwner? && r.owner == a.key)
    || (a.fk.RulesOfViewer? && r.viewer == ViewerPerson(a.key))
    || (a.fk.RulesOfViewerRole? && r.viewer == ViewerRole(a.key))
    || (a.fk.RulesOfViewerUnit? && r.viewer == ViewerUnit(a.key))
  }

  function PhonesHit(d: Dependents, a: Action): set<Id> {
    set k <- d.phones.rows | PhoneHit(d.phones.rows[k], a)
  }

  function RolesHit(d: Dependents, a: Action): set<Id> {
    set k <- d.roles.rows | RoleHit(d.roles.rows[k], a)
  }

  function RelationsHit(d: Dependents, a: Action): set<Id> {
    set k <- d.relations.rows | RelationHit(d.relations.rows[k], a)
  }

  function AssignmentsHit(d: Dependents, a: Action): set<Id> {
    set k <- d.assignments.rows | AssignmentHit(d.assignments.rows[k], a)
  }

  function RulesHit(d: Dependents, a: Action): set<Id> {
    set k <- d.rules.rows | RuleHit(d.rules.rows[k], a)
  }

  /** What the deletion of a person, a unit or some roles starts. */
  function PersonActions(id: Id): set<Action> {
    {Action(PhonesOfPerson, id), Action(RelationsOfPerson, id), Action(AssignmentsOfPerson, id),
     Action(RulesOfOwner, id), Action(RulesOfViewer, id)}
  }

  function UnitActions(id: Id): set<Action> {
    {Action(PhonesOfUnit, id), Action(RolesOfUnit, id), Action(RelationsOfUnit, id), Action(RulesOfViewerUnit, id)}
  }

  function RoleActions(ids: set<Id>): set<Action> {
    (set id <- ids :: Action(AssignmentsOfRole, id)) + (set id <- ids :: Action(RulesOfViewerRole, id))
  }

  // ---------- Following them ----------

  /** The tables and the actions still to be taken. */
  datatype Work = Work(d: Dependents, pending: set<Action>)

  /** One action, with the orders in which it deletes the rows that refer to its key now. */
  datatype Move = Move(action: Action, order: Cascade)

  predicate Possible(w: Work, m: Move) {
    && m.action in w.pending
    && Enumerates(m.order.phones, PhonesHit(w.d, m.action))
    && Enumerates(m.order.roles, RolesHit(w.d, m.action))
    && Enumerates(m.order.relations, RelationsHit(w.d, m.action))
    && Enumerates(m.order.assignments, AssignmentsHit(w.d, m.action))
    && Enumerates(m.order.rules, RulesHit(w.d, m.action))
  }

  /** Deletes the rows and starts the actions of the roles among them. */
  function Take(w: Work, m: Move, user: string): Work
    requires Possible(w, m)
  {
    Work(DeleteAll(w.d, m.order, user), w.pending - {m.action} + RoleActions(RolesHit(w.d, m.action)))
  }

  /** Each move is possible when it is made. */
  predicate CanFollow(w: Work, moves: seq<Move>, user: string)
    decreases |moves|, 0
  {
    moves == [] ||
    var front := moves[..|moves| - 1];
    CanFollow(w, front, user) && Possible(Followed(w, front, user), moves[|moves| - 1])
  }

  function Followed(w: Work, moves: seq<Move>, user: string): Work
    requires CanFollow(w, moves, user)
    decreases |moves|, 1
  {
    if moves == [] then w
    else Take(Followed(w, moves[..|moves| - 1], user), moves[|moves| - 1], user)
  }

  /** The moves leave nothing to do. */
  predicate Finishes(w: Work, moves: seq<Move>, user: string) {
    CanFollow(w, moves, user) && Followed(w, moves, user).pending == {}
  }

  // ---------- Termination ----------

  lemma RoleActionsSize(ids: set<Id>)
    ensures |RoleActions(ids)| <= 2 * |ids|
  {
    ImageSize(ids, AssignmentsOfRole);
    ImageSize(ids, RulesOfViewerRole);
  }

  lemma {:induction false} ImageSize(ids: set<Id>, fk: ForeignKey)
    ensures |set id <- ids :: Action(fk, id)| == |ids|
  {
    if ids != {} {
      var id := SomeElement(ids);
      var others := set k <- ids - {id} :: Action(fk, k);
      ImageSize(ids - {id}, fk);
      assert (set k <- ids :: Action(fk, k)) == others + {Action(fk, id)};
    }
  }

  lemma TakeShrinks(w: Work, m: Move, user: string)
    requires Possible(w, m)
    ensures var w' := Take(w, m, user);
      |w'.pending| + 2 * |w'.d.roles.rows.Keys| + 1 <= |w.pending| + 2 * |w.d.roles.rows.Keys|
  {
    var hit := RolesHit(w.d, m.action);
    SetOfEnumerated(m.order.roles, hit);
    RoleActionsSize(hit);
    assert Take(w, m, user).d.roles.rows.Keys == w.d.roles.rows.Keys - hit;
    assert w.d.roles.rows.Keys == (w.d.roles.rows.Keys - hit) + hit;
    assert |w.pending - {m.action}| == |w.pending| - 1;
  }

  /** However the actions are ordered, there are at most as many moves as actions at the start and
      two for every role. */
  lemma {:induction false} MovesAreBounded(w: Work, moves: seq<Move>, user: string)
    requires CanFollow(w, moves, user)
    ensures var w' := Followed(w, moves, user);
      |moves| + |w'.pending| + 2 * |w'.d.roles.rows.Keys| <= |w.pending| + 2 * |w.d.roles.rows.Keys|
    decreases |moves|
  {
    if moves != [] {
      var front := moves[..|moves| - 1];
      MovesAreBounded(w, front, user);
      TakeShrinks(Followed(w, front, user), moves[|moves| - 1], user);
    }
  }

  // ---------- What following them reaches ----------

  /** `t'` is `t` with some of the doomed rows deleted, in the order of `done`. */
  ghost predicate Partly<R>(t: Table<R>, t': Table<R>, done: seq<Id>, doomed: set<Id>, user: string) {
    && Distinct(done) && (forall k <- done :: k in doomed) && doomed <= t.rows.Keys
    && t' == DeleteRows(t, done, user)
  }

  lemma DeleteMore<R>(t: Table<R>, t': Table<R>, done: seq<Id>, more: seq<Id>, doomed: set<Id>, user: string)
    requires Partly(t, t', done, doomed, user)
    requires Distinct(more) && forall k <- more :: k in doomed && k in t'.rows
    ensures Partly(t, DeleteRows(t', more, user), done + more, doomed, user)
  {
    DeleteRowsConcat(t, done, more, user);
    DistinctConcat(done, more);
  }

  lemma RowsLeft<R>(t: Table<R>, t': Table<R>, done: seq<Id>, doomed: set<Id>, user: string)
    requires Partly(t, t', done, doomed, user)
    ensures forall k :: k in t'.rows <==> k in t.rows && k !in done
    ensures forall k <- t'.rows :: t'.rows[k] == t.rows[k]
  {
  }

  /** Actions are taken only for keys that are gone. */
  predicate Justified(d: Dependents, g: Gone, a: Action) {
    match a.fk
    case PhonesOfPerson => a.key in g.persons
    case PhonesOfUnit => a.key in g.units
    case RolesOfUnit => a.key in g.units
    case RelationsOfPerson => a.key in g.persons
    case RelationsOfUnit => a.key in g.units
    case AssignmentsOfPerson => a.key in g.persons
    case AssignmentsOfRole => a.key in RolesGone(d, g)
    case RulesOfOwner => a.key in g.persons
    case RulesOfViewer => a.key in g.persons
    case RulesOfViewerRole => a.key in RolesGone(d, g)
    case RulesOfViewerUnit => a.key in g.units
  }

  ghost predicate PhonesFollowed(d: Dependents, g: Gone, w: Work) {
    forall k :: k in w.d.phones.rows && k in PhonesGone(d, g) ==>
      exists a :: a in w.pending && PhoneHit(d.phones.rows[k], a)
  }

  ghost predicate RolesFollowed(d: Dependents, g: Gone, w: Work) {
    forall k :: k in w.d.roles.rows && k in RolesGone(d, g) ==>
      exists a :: a in w.pending && RoleHit(d.roles.rows[k], a)
  }

  ghost predicate RelationsFollowed(d: Dependents, g: Gone, w: Work) {
    forall k :: k in w.d.relations.rows && k in RelationsGone(d, g) ==>
      exists a :: a in w.pending && RelationHit(d.relations.rows[k], a)
  }

  /** An assignment that should go is hit by an action, or its role has still to go. */
  ghost predicate AssignmentsFollowed(d: Dependents, g: Gone, w: Work) {
    forall k :: k in w.d.assignments.rows && k in AssignmentsGone(d, g) ==>
      || (exists a :: a in w.pending && AssignmentHit(d.assignments.rows[k], a))
      || (d.assignments.rows[k].role in w.d.roles.rows && d.assignments.rows[k].role in RolesGone(d, g))
  }

  ghost predicate RulesFollowed(d: Dependents, g: Gone, w: Work) {
    forall k :: k in w.d.rules.rows && k in RulesGone(d, g) ==>
      || (exists a :: a in w.pending && RuleHit(d.rules.rows[k], a))
      || (d.rules.rows[k].viewer.ViewerRole?
          && d.rules.rows[k].viewer.role in w.d.roles.rows && d.rules.rows[k].viewer.role in RolesGone(d, g))
  }

  /** Nothing but doomed rows is deleted so far. */
  ghost predicate OnlyDoomed(d: Dependents, g: Gone, w: Work, c: Cascade, user: string) {
    && Partly(d.phones, w.d.phones, c.phones, PhonesGone(d, g), user)
    && Partly(d.roles, w.d.roles, c.roles, RolesGone(d, g), user)
    && Partly(d.relations, w.d.relations, c.relations, RelationsGone(d, g), user)
    && Partly(d.assignments, w.d.assignments, c.assignments, AssignmentsGone(d, g), user)
    && Partly(d.rules, w.d.rules, c.rules, RulesGone(d, g), user)
    && forall a <- w.pending :: Justified(d, g, a)
  }

  /** Every doomed row that is left will be reached. */
  ghost predicate AllFollowed(d: Dependents, g: Gone, w: Work) {
    && PhonesFollowed(d, g, w) && RolesFollowed(d, g, w) && RelationsFollowed(d, g, w)
    && AssignmentsFollowed(d, g, w) && RulesFollowed(d, g, w)
  }

  function Joined(c: Cascade, m: Cascade): Cascade {
    Cascade(c.phones + m.phones, c.roles + m.roles, c.relations + m.relations, c.assignments + m.assignments,
            c.rules + m.rules)
  }

  lemma TakePhones(d: Dependents, g: Gone, w: Work, c: Cascade, m: Move, user: string)
    requires OnlyDoomed(d, g, w, c, user) && Possible(w, m)
    ensures Partly(d.phones, Take(w, m, user).d.phones, c.phones + m.order.phones, PhonesGone(d, g), user)
    ensures PhonesFollowed(d, g, w) ==> PhonesFollowed(d, g, Take(w, m, user))
  {
    assert Justified(d, g, m.action);
    RowsLeft(d.phones, w.d.phones, c.phones, PhonesGone(d, g), user);
    DeleteMore(d.phones, w.d.phones, c.phones, m.order.phones, PhonesGone(d, g), user);
    SetOfEnumerated(m.order.phones, PhonesHit(w.d, m.action));
  }

  lemma TakeRoles(d: Dependents, g: Gone, w: Work, c: Cascade, m: Move, user: string)
    requires OnlyDoomed(d, g, w, c, user) && Possible(w, m)
    ensures Partly(d.roles, Take(w, m, user).d.roles, c.roles + m.order.roles, RolesGone(d, g), user)
    ensures RolesFollowed(d, g, w) ==> RolesFollowed(d, g, Take(w, m, user))
    ensures RolesHit(w.d, m.action) <= RolesGone(d, g)
  {
    assert Justified(d, g, m.action);
    RowsLeft(d.roles, w.d.roles, c.roles, RolesGone(d, g), user);
    DeleteMore(d.roles, w.d.roles, c.roles, m.order.roles, RolesGone(d, g), user);
    SetOfEnumerated(m.order.roles, RolesHit(w.d, m.action));
  }

  lemma TakeRelations(d: Dependents, g: Gone, w: Work, c: Cascade, m: Move, user: string)
    requires OnlyDoomed(d, g, w, c, user) && Possible(w, m)
    ensures Partly(
      d.relations, Take(w, m, user).d.relations, c.relations + m.order.relations, RelationsGone(d, g), user)
    ensures RelationsFollowed(d, g, w) ==> RelationsFollowed(d, g, Take(w, m, user))
  {
    assert Justified(d, g, m.action);
    RowsLeft(d.relations, w.d.relations, c.relations, RelationsGone(d, g), user);
    DeleteMore(d.relations, w.d.relations, c.relations, m.order.relations, RelationsGone(d, g), user);
    SetOfEnumerated(m.order.relations, RelationsHit(w.d, m.action));
  }

  /** The deletion of a role starts the actions for its assignments and rules. */
  lemma RoleStillFollowed(d: Dependents, g: Gone, w: Work, m: Move, user: string, role: Id)
    requires Possible(w, m) && role in w.d.roles.rows
    ensures var w' := Take(w, m, user);
      || role in w'.d.roles.rows
      || (Action(AssignmentsOfRole, role) in w'.pending && Action(RulesOfViewerRole, role) in w'.pending)
  {
    SetOfEnumerated(m.order.roles, RolesHit(w.d, m.action));
  }

  lemma TakeAssignments(d: Dependents, g: Gone, w: Work, c: Cascade, m: Move, user: string)
    requires OnlyDoomed(d, g, w, c, user) && Possible(w, m)
    ensures Partly(
      d.assignments, Take(w, m, user).d.assignments, c.assignments + m.order.assignments, AssignmentsGone(d, g), user)
    ensures AssignmentsFollowed(d, g, w) ==> AssignmentsFollowed(d, g, Take(w, m, user))
  {
    assert Justified(d, g, m.action);
    RowsLeft(d.assignments, w.d.assignments, c.assignments, AssignmentsGone(d, g), user);
    DeleteMore(d.assignments, w.d.assignments, c.assignments, m.order.assignments, AssignmentsGone(d, g), user);
    SetOfEnumerated(m.order.assignments, AssignmentsHit(w.d, m.action));
    if AssignmentsFollowed(d, g, w) {
      var w' := Take(w, m, user);
      forall k | k in w'.d.assignments.rows && k in AssignmentsGone(d, g)
        ensures (exists a :: a in w'.pending && AssignmentHit(d.assignments.rows[k], a))
          || (d.assignments.rows[k].role in w'.d.roles.rows && d.assignments.rows[k].role in RolesGone(d, g))
      {
        var x := d.assignments.rows[k];
        if x.role in w.d.roles.rows {
          RoleStillFollowed(d, g, w, m, user, x.role);
          assert AssignmentHit(x, Action(AssignmentsOfRole, x.role));
        }
      }
    }
  }

  lemma TakeRules(d: Dependents, g: Gone, w: Work, c: Cascade, m: Move, user: string)
    requires OnlyDoomed(d, g, w, c, user) && Possible(w, m)
    ensures Partly(d.rules, Take(w, m, user).d.rules, c.rules + m.order.rules, RulesGone(d, g), user)
    ensures RulesFollowed(d, g, w) ==> RulesFollowed(d, g, Take(w, m, user))
  {
    assert Justified(d, g, m.action);
    RowsLeft(d.rules, w.d.rules, c.rules, RulesGone(d, g), user);
    DeleteMore(d.rules, w.d.rules, c.rules, m.order.rules, RulesGone(d, g), user);
    SetOfEnumerated(m.order.rules, RulesHit(w.d, m.action));
    if RulesFollowed(d, g, w) {
      var w' := Take(w, m, user);
      forall k | k in w'.d.rules.rows && k in RulesGone(d, g)
        ensures (exists a :: a in w'.pending && RuleHit(d.rules.rows[k], a))
          || (d.rules.rows[k].viewer.ViewerRole?
              && d.rules.rows[k].viewer.role in w'.d.roles.rows && d.rules.rows[k].viewer.role in RolesGone(d, g))
      {
        var r := d.rules.rows[k];
        if r.viewer.ViewerRole? && r.viewer.role in w.d.roles.rows {
          RoleStillFollowed(d, g, w, m, user, r.viewer.role);
          assert RuleHit(r, Action(RulesOfViewerRole, r.viewer.role));
        }
      }
    }
  }

  lemma NewActionsJustified(d: Dependents, g: Gone, w: Work, m: Move, user: string)
    requires Possible(w, m) && RolesHit(w.d, m.action) <= RolesGone(d, g)
    requires forall a <- w.pending :: Justified(d, g, a)
    ensures forall a <- Take(w, m, user).pending :: Justified(d, g, a)
  {
  }

  lemma TakeKeeps(d: Dependents, g: Gone, w: Work, c: Cascade, m: Move, user: string)
    requires OnlyDoomed(d, g, w, c, user) && AllFollowed(d, g, w) && Possible(w, m)
    ensures OnlyDoomed(d, g, Take(w, m, user), Joined(c, m.order), user) && AllFollowed(d, g, Take(w, m, user))
  {
    TakePhones(d, g, w, c, m, user);
    TakeRoles(d, g, w, c, m, user);
    TakeRelations(d, g, w, c, m, user);
    TakeAssignments(d, g, w, c, m, user);
    TakeRules(d, g, w, c, m, user);
    NewActionsJustified(d, g, w, m, user);
  }

  lemma {:induction false} FollowedKeeps(
    d: Dependents, g: Gone, w: Work, c: Cascade, moves: seq<Move>, user: string) returns (c': Cascade)
    requires OnlyDoomed(d, g, w, c, user) && AllFollowed(d, g, w) && CanFollow(w, moves, user)
    ensures OnlyDoomed(d, g, Followed(w, moves, user), c', user) && AllFollowed(d, g, Followed(w, moves, user))
    decreases |moves|
  {
    if moves == [] {
      c' := c;
    } else {
      var front, last := moves[..|moves| - 1], moves[|moves| - 1];
      c' := FollowedKeeps(d, g, w, c, front, user);
      TakeKeeps(d, g, Followed(w, front, user), c', last, user);
      c' := Joined(c', last.order);
    }
  }

  lemma AllDone<R>(t: Table<R>, t': Table<R>, done: seq<Id>, doomed: set<Id>, user: string)
    requires Partly(t, t', done, doomed, user) && forall k :: k in t'.rows ==> k !in doomed
    ensures Enumerates(done, doomed)
  {
    RowsLeft(t, t', done, doomed, user);
    forall k <- doomed ensures k in done {
      assert k in t.rows;
    }
  }

  /** With no action left every doomed row is gone. */
  lemma NothingLeft(d: Dependents, g: Gone, w: Work, c: Cascade, user: string)
    requires OnlyDoomed(d, g, w, c, user) && AllFollowed(d, g, w) && w.pending == {}
    ensures Covers(d, g, c) && Deletable(d, c) && w.d == DeleteAll(d, c, user)
  {
    AllDone(d.phones, w.d.phones, c.phones, PhonesGone(d, g), user);
    AllDone(d.roles, w.d.roles, c.roles, RolesGone(d, g), user);
    AllDone(d.relations, w.d.relations, c.relations, RelationsGone(d, g), user);
    AllDone(d.assignments, w.d.assignments, c.assignments, AssignmentsGone(d, g), user);
    AllDone(d.rules, w.d.rules, c.rules, RulesGone(d, g), user);
  }

  // ---------- The three kinds of deletions ----------

  const NOTHING := Cascade([], [], [], [], [])

  lemma NothingDone(d: Dependents, g: Gone, user: string)
    ensures Partly(d.phones, d.phones, [], PhonesGone(d, g), user)
    ensures Partly(d.roles, d.roles, [], RolesGone(d, g), user)
    ensures Partly(d.relations, d.relations, [], RelationsGone(d, g), user)
    ensures Partly(d.assignments, d.assignments, [], AssignmentsGone(d, g), user)
    ensures Partly(d.rules, d.rules, [], RulesGone(d, g), user)
  {
  }

  lemma PersonStarts(d: Dependents, id: Id, user: string)
    ensures var g := Gone({id}, {}, {}); var w := Work(d, PersonActions(id));
      OnlyDoomed(d, g, w, NOTHING, user) && AllFollowed(d, g, w)
  {
    NothingDone(d, Gone({id}, {}, {}), user);
    var w := Work(d, PersonActions(id));
    assert Action(PhonesOfPerson, id) in w.pending && Action(RelationsOfPerson, id) in w.pending;
    assert Action(AssignmentsOfPerson, id) in w.pending;
    assert Action(RulesOfOwner, id) in w.pending && Action(RulesOfViewer, id) in w.pending;
  }

  lemma UnitStarts(d: Dependents, id: Id, user: string)
    ensures var g := Gone({}, {id}, {}); var w := Work(d, UnitActions(id));
      OnlyDoomed(d, g, w, NOTHING, user) && AllFollowed(d, g, w)
  {
    NothingDone(d, Gone({}, {id}, {}), user);
    var w := Work(d, UnitActions(id));
    assert Action(PhonesOfUnit, id) in w.pending && Action(RelationsOfUnit, id) in w.pending;
    assert Action(RolesOfUnit, id) in w.pending && Action(RulesOfViewerUnit, id) in w.pending;
  }

  /** A role is deleted first, and its actions start then. */
  function RoleWork(d: Dependents, id: Id, user: string): Work
    requires id in d.roles.rows
  {
    Work(d.(roles := DeleteRow(d.roles, id, user)), RoleActions({id}))
  }

  lemma RoleStarts(d: Dependents, id: Id, user: string)
    requires id in d.roles.rows
    ensures var g := Gone({}, {}, {id}); var w := RoleWork(d, id, user);
      OnlyDoomed(d, g, w, NOTHING.(roles := [id]), user) && AllFollowed(d, g, w)
  {
    NothingDone(d, Gone({}, {}, {id}), user);
    assert [id][..0] == [];
    assert DeleteRows(d.roles, [id], user) == DeleteRow(d.roles, id, user);
    var w := RoleWork(d, id, user);
    assert Action(AssignmentsOfRole, id) in w.pending && Action(RulesOfViewerRole, id) in w.pending;
  }

  /** Whatever the order in which the actions are taken and in which each deletes its rows, following
      the foreign keys ends by having deleted exactly the rows that belong to what is gone, at both
      levels and each of them once. */
  lemma FollowingReaches(d: Dependents, g: Gone, w: Work, c: Cascade, moves: seq<Move>, user: string)
    returns (c': Cascade)
    requires OnlyDoomed(d, g, w, c, user) && AllFollowed(d, g, w) && Finishes(w, moves, user)
    ensures Covers(d, g, c') && Deletable(d, c') && Followed(w, moves, user).d == DeleteAll(d, c', user)
    ensures Shrunk(d, Followed(w, moves, user).d, g)
  {
    c' := FollowedKeeps(d, g, w, c, moves, user);
    NothingLeft(d, g, Followed(w, moves, user), c', user);
    CoveredShrinks(d, g, c', user);
  }

  // ---------- The loop ----------

  /** Deletes the rows one by one, in some order. */
  method DeleteEach<R>(t: Table<R>, doomed: set<Id>, user: string) returns (t': Table<R>, ghost order: seq<Id>)
    requires doomed <= t.rows.Keys
    ensures Enumerates(order, doomed) && t' == DeleteRows(t, order, user)
    ensures t'.rows == t.rows - doomed && t'.nextId == t.nextId
  {
    order, t' := [], t;
    var todo := doomed;
    while todo != {}
      invariant Distinct(order) && (forall p <- order :: p in t.rows)
      invariant (set p <- order) !! todo && (set p <- order) + todo == doomed
      invariant t' == DeleteRows(t, order, user)
    {
      ghost var some := SomeElement(todo);
      var p :| p in todo;
      assert (order + [p])[..|order|] == order;
      t' := DeleteRow(t', p, user);
      order := order + [p];
      todo := todo - {p};
    }
    SetOfEnumerated(order, doomed);
  }

  /** Takes any of the actions left, on the tables as they are then, until none is left. */
  method Follow(w: Work, user: string) returns (d: Dependents, ghost moves: seq<Move>)
    ensures Finishes(w, moves, user) && d == Followed(w, moves, user).d
  {
    moves := [];
    var now := w;
    while now.pending != {}
      invariant CanFollow(w, moves, user) && now == Followed(w, moves, user)
      decreases |now.pending| + 2 * |now.d.roles.rows.Keys|
    {
      ghost var some := SomeElement(now.pending);
      var a :| a in now.pending;
      ghost var m;
      now, m := TakeAction(now, a, user);
      moves := AppendMove(w, moves, m, user);
    }
    d := now.d;
  }

  lemma AppendMove(w: Work, moves: seq<Move>, m: Move, user: string) returns (more: seq<Move>)
    requires CanFollow(w, moves, user) && Possible(Followed(w, moves, user), m)
    ensures CanFollow(w, more, user) && Followed(w, more, user) == Take(Followed(w, moves, user), m, user)
  {
    more := moves + [m];
    assert more[..|more| - 1] == moves;
  }

  /** Deletes the rows that refer to the action's key and starts the actions of the roles among them. */
  method TakeAction(w: Work, a: Action, user: string) returns (w': Work, ghost m: Move)
    requires a in w.pending
    ensures Possible(w, m) && w' == Take(w, m, user)
    ensures |w'.pending| + 2 * |w'.d.roles.rows.Keys| < |w.pending| + 2 * |w.d.roles.rows.Keys|
  {
    var hit := RolesHit(w.d, a);
    var phones, c1 := DeleteEach(w.d.phones, PhonesHit(w.d, a), user);
    var roles, c2 := DeleteEach(w.d.roles, hit, user);
    var relations, c3 := DeleteEach(w.d.relations, RelationsHit(w.d, a), user);
    var assignments, c4 := DeleteEach(w.d.assignments, AssignmentsHit(w.d, a), user);
    var rules, c5 := DeleteEach(w.d.rules, RulesHit(w.d, a), user);
    m := Move(a, Cascade(c1, c2, c3, c4, c5));
    w' := Work(Dependents(phones, roles, relations, assignments, rules), w.pending - {a} + RoleActions(hit));
    TakeShrinks(w, m, user);
  }
}
