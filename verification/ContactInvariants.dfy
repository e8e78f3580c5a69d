/** What every call on the contact database keeps, in every state it can reach: the foreign keys and
    the NOT NULL, CHECK and UNIQUE constraints of `contact/db/contact_ddl.sql` hold, each search vector
    is the one its row and names give, and each audit log rebuilds its table. Every step is shown to
    keep each of these parts on its own, the deletions with their foreign keys followed in any order,
    and to append to the logs under the audit user only. What a step does to single rows is in
    ContactEffects.dfy. */
module ContactInvariants {
  import opened Wrappers
  import opened AuditedTables
  import opened Rows = DependentTables
  import opened ForeignKeys
  import opened ContactDb

  // ---------- The invariant ----------

  /** Parents exist and types are among the allowed ones. */
  ghost predicate UnitsConsistent(units: map<Id, Unit>) {
    && (forall id <- units :: units[id].parent.Some? ==> units[id].parent.value in units)
    && (forall id <- units :: units[id].orgType in ORG_TYPES)
  }

  ghost predicate NamesConsistent(names: Names, units: set<Id>) {
    forall k <- names :: k.0 in units && k.1 in LOCALES
  }

  ghost predicate TaxIdsUnique(persons: map<Id, Person>) {
    forall i, j :: i in persons && j in persons && i != j && persons[i].taxId.Some? ==>
      persons[i].taxId != persons[j].taxId
  }

  /** The foreign keys and the NOT NULL, CHECK and UNIQUE constraints. */
  ghost predicate Consistent(db: Db) {
    && UnitsConsistent(db.units.rows)
    && NamesConsistent(db.names, db.units.rows.Keys)
    && TaxIdsUnique(db.persons.rows)
    && Owned(db.dependents, db.persons.rows.Keys, db.units.rows.Keys)
  }

  /** Every stored search vector is the one its row and names would give now. */
  ghost predicate InSync(names: Names, units: map<Id, Unit>) {
    forall id <- units :: units[id].vector == VectorOf(names, id, units[id])
  }

  ghost predicate PersonsInSync(persons: map<Id, Person>) {
    forall id <- persons :: persons[id].vector == PersonVectorOf(persons[id])
  }

  /** Every audit log rebuilds its table. */
  ghost predicate Audited(db: Db) {
    Faithful(db.persons) && Faithful(db.units) && AllFaithful(db.dependents)
  }

  ghost predicate Invariant(db: Db) {
    Consistent(db) && InSync(db.names, db.units.rows) && PersonsInSync(db.persons.rows) && Audited(db)
  }

  lemma EmptyInvariant()
    ensures Invariant(EMPTY)
  {
  }

  // ---------- Units and their names ----------

  lemma InsertUnitConsistent(db: Db, fields: UnitFields, user: string)
    requires Consistent(db) && Faithful(db.units)
    ensures Consistent(Step(db, InsertUnit(fields), user))
  {
    var id := db.units.nextId;
    MorePersonsAndUnits(
      db.dependents, db.persons.rows.Keys, db.units.rows.Keys, db.persons.rows.Keys, db.units.rows.Keys + {id});
    assert db.units.rows[id := WithVector(db.names, id, RowOf(fields, SearchVector("", "", "")))].Keys
      == db.units.rows.Keys + {id};
  }

  lemma RowInSync(names: Names, units: map<Id, Unit>, id: Id, u: Unit)
    requires InSync(names, units)
    ensures InSync(names, units[id := WithVector(names, id, u)])
  {
  }

  lemma InsertUnitKeeps(db: Db, fields: UnitFields, user: string)
    requires Invariant(db)
    ensures Invariant(Step(db, InsertUnit(fields), user))
  {
    var id := db.units.nextId;
    var row := RowOf(fields, SearchVector("", "", ""));
    InsertUnitConsistent(db, fields, user);
    RowInSync(db.names, db.units.rows, id, row);
    RowStatementsFaithful(db.units, id, WithVector(db.names, id, row), user);
  }

  lemma UpdateUnitConsistent(db: Db, id: Id, fields: UnitFields, user: string)
    requires Consistent(db)
    ensures Consistent(Step(db, UpdateUnit(id, fields), user))
  {
    if id in db.units.rows {
      var row := WithVector(db.names, id, RowOf(fields, db.units.rows[id].vector));
      assert db.units.rows[id := row].Keys == db.units.rows.Keys;
    }
  }

  lemma UpdateUnitKeeps(db: Db, id: Id, fields: UnitFields, user: string)
    requires Invariant(db)
    ensures Invariant(Step(db, UpdateUnit(id, fields), user))
  {
    UpdateUnitConsistent(db, id, fields, user);
    if id in db.units.rows {
      var row := RowOf(fields, db.units.rows[id].vector);
      RowInSync(db.names, db.units.rows, id, row);
      RowStatementsFaithful(db.units, id, WithVector(db.names, id, row), user);
    }
  }

  /** A new name changes the vector of its own unit only, and that is refreshed. */
  lemma NamedInSync(names: Names, units: map<Id, Unit>, unit: Id, locale: LocaleId, name: Localized)
    requires InSync(names, units) && unit in units
    ensures var names' := names[(unit, locale) := name];
      InSync(names', units[unit := WithVector(names', unit, units[unit])])
  {
  }

  lemma NamedConsistent(units: map<Id, Unit>, unit: Id, row: Unit)
    requires UnitsConsistent(units) && unit in units
    requires row.parent == units[unit].parent && row.orgType == units[unit].orgType
    ensures UnitsConsistent(units[unit := row]) && units[unit := row].Keys == units.Keys
  {
  }

  lemma InsertLocalizedKeeps(db: Db, unit: Id, locale: LocaleId, name: string, user: string)
    requires Invariant(db)
    ensures Invariant(Step(db, InsertLocalized(unit, locale, name), user))
  {
    if unit in db.units.rows {
      var named := Localized(db.nextNameId, name);
      var names := db.names[(unit, locale) := named];
      var row := WithVector(names, unit, db.units.rows[unit]);
      NamedInSync(db.names, db.units.rows, unit, locale, named);
      NamedConsistent(db.units.rows, unit, row);
      RowStatementsFaithful(db.units, unit, row, user);
    }
  }

  /** What deleting a unit leaves: the other units, those below it without a parent, the names that
      do not belong to it, and the rows its cascade does not reach at either level. */
  ghost predicate UnitRemoved(db: Db, db': Db, id: Id) {
    && db'.units.rows.Keys == db.units.rows.Keys - {id}
    && (forall u <- db'.units.rows :: db'.units.rows[u] == Orphaned(db.units.rows[u], id))
    && db'.names == NamesWithout(db.names, id)
    && db'.persons == db.persons
    && Shrunk(db.dependents, db'.dependents, Gone({}, {id}, {}))
  }

  function Orphaned(u: Unit, id: Id): Unit {
    if u.parent == Some(id) then WithoutParent(u) else u
  }

  /** Following the foreign keys of a unit, in any order. */
  lemma UnitFollowed(d: Dependents, id: Id, moves: seq<Move>, user: string) returns (c: Cascade)
    requires Finishes(Work(d, UnitActions(id)), moves, user)
    ensures var d' := Followed(Work(d, UnitActions(id)), moves, user).d;
      Deletable(d, c) && d' == DeleteAll(d, c, user) && Shrunk(d, d', Gone({}, {id}, {}))
  {
    UnitStarts(d, id, user);
    c := FollowingReaches(d, Gone({}, {id}, {}), Work(d, UnitActions(id)), NOTHING, moves, user);
  }

  lemma PersonFollowed(d: Dependents, id: Id, moves: seq<Move>, user: string) returns (c: Cascade)
    requires Finishes(Work(d, PersonActions(id)), moves, user)
    ensures var d' := Followed(Work(d, PersonActions(id)), moves, user).d;
      Deletable(d, c) && d' == DeleteAll(d, c, user) && Shrunk(d, d', Gone({id}, {}, {}))
  {
    PersonStarts(d, id, user);
    c := FollowingReaches(d, Gone({id}, {}, {}), Work(d, PersonActions(id)), NOTHING, moves, user);
  }

  lemma RoleFollowed(d: Dependents, id: Id, moves: seq<Move>, user: string) returns (c: Cascade)
    requires id in d.roles.rows && Finishes(RoleWork(d, id, user), moves, user)
    ensures var d' := Followed(RoleWork(d, id, user), moves, user).d;
      Deletable(d, c) && d' == DeleteAll(d, c, user) && Shrunk(d, d', Gone({}, {}, {id}))
  {
    RoleStarts(d, id, user);
    c := FollowingReaches(d, Gone({}, {}, {id}), RoleWork(d, id, user), NOTHING.(roles := [id]), moves, user);
  }

  lemma RemoveUnitEffect(db: Db, id: Id, children: seq<Id>, moves: seq<Move>, user: string)
    requires Enabled(db, RemoveUnit(id, children, moves), user) && id in db.units.rows
    ensures UnitRemoved(db, Step(db, RemoveUnit(id, children, moves), user), id)
  {
    UpdateRowsEffect(db.units, children, WithoutParent, user);
    var c := UnitFollowed(db.dependents, id, moves, user);
  }

  lemma RemoveUnitAudited(db: Db, id: Id, children: seq<Id>, moves: seq<Move>, user: string)
    requires Enabled(db, RemoveUnit(id, children, moves), user) && id in db.units.rows && Audited(db)
    ensures Audited(Step(db, RemoveUnit(id, children, moves), user))
  {
    UpdateRowsEffect(db.units, children, WithoutParent, user);
    var units := UpdateRows(db.units, children, WithoutParent, user);
    RowStatementsFaithful(units, id, units.rows[id], user);
    var c := UnitFollowed(db.dependents, id, moves, user);
    DeleteAllFaithful(db.dependents, c, user);
  }

  lemma RemovedUnitsConsistent(db: Db, db': Db, id: Id)
    requires Consistent(db) && UnitRemoved(db, db', id)
    ensures UnitsConsistent(db'.units.rows) && NamesConsistent(db'.names, db'.units.rows.Keys)
  {
  }

  lemma RemovedInSync(db: Db, db': Db, id: Id)
    requires InSync(db.names, db.units.rows) && UnitRemoved(db, db', id)
    ensures InSync(db'.names, db'.units.rows)
  {
  }

  lemma RemoveUnitKeeps(db: Db, id: Id, children: seq<Id>, moves: seq<Move>, user: string)
    requires Invariant(db) && Enabled(db, RemoveUnit(id, children, moves), user) && id in db.units.rows
    ensures Invariant(Step(db, RemoveUnit(id, children, moves), user))
  {
    var db' := Step(db, RemoveUnit(id, children, moves), user);
    RemoveUnitEffect(db, id, children, moves, user);
    RemoveUnitAudited(db, id, children, moves, user);
    RemovedUnitsConsistent(db, db', id);
    RemovedInSync(db, db', id);
    ShrunkOwned(
      db.dependents, db'.dependents, Gone({}, {id}, {}), db.persons.rows.Keys, db.units.rows.Keys);
    assert db.persons.rows.Keys - {} == db.persons.rows.Keys;
  }

  // ---------- Persons ----------

  lemma InsertPersonKeeps(db: Db, fields: PersonFields, user: string)
    requires Invariant(db)
    ensures Invariant(Step(db, InsertPerson(fields), user))
  {
    var id, row := db.persons.nextId, PersonRow(fields);
    InsertedFaithful(db.persons, PersonAllowed(row, id, db.persons.rows), row, user);
    MorePersonsAndUnits(
      db.dependents, db.persons.rows.Keys, db.units.rows.Keys, db.persons.rows.Keys + {id}, db.units.rows.Keys);
    assert db.persons.rows[id := row].Keys == db.persons.rows.Keys + {id};
  }

  lemma UpdatePersonKeeps(db: Db, id: Id, fields: PersonFields, user: string)
    requires Invariant(db)
    ensures Invariant(Step(db, UpdatePerson(id, fields), user))
  {
    RowStatementsFaithful(db.persons, id, PersonRow(fields), user);
    assert id in db.persons.rows ==> db.persons.rows[id := PersonRow(fields)].Keys == db.persons.rows.Keys;
  }

  lemma RemovePersonKeeps(db: Db, id: Id, moves: seq<Move>, user: string)
    requires Invariant(db) && Enabled(db, RemovePerson(id, moves), user) && id in db.persons.rows
    ensures Invariant(Step(db, RemovePerson(id, moves), user))
  {
    RowStatementsFaithful(db.persons, id, db.persons.rows[id], user);
    var c := PersonFollowed(db.dependents, id, moves, user);
    DeleteAllFaithful(db.dependents, c, user);
    ShrunkOwned(
      db.dependents, DeleteAll(db.dependents, c, user), Gone({id}, {}, {}),
      db.persons.rows.Keys, db.units.rows.Keys);
    assert db.units.rows.Keys - {} == db.units.rows.Keys;
    assert (db.persons.rows - {id}).Keys == db.persons.rows.Keys - {id};
  }

  // ---------- Dependent rows ----------

  lemma InsertDependentKeeps(db: Db, row: Dependent, user: string)
    requires Invariant(db)
    ensures Invariant(Step(db, InsertDependent(row), user))
  {
    InsertOwned(db.dependents, db.persons.rows.Keys, db.units.rows.Keys, row, user);
    InsertFaithful(db.dependents, db.persons.rows.Keys, db.units.rows.Keys, row, user);
  }

  lemma RemoveRoleKeeps(db: Db, id: Id, moves: seq<Move>, user: string)
    requires Invariant(db) && Enabled(db, RemoveRole(id, moves), user) && id in db.dependents.roles.rows
    ensures Invariant(Step(db, RemoveRole(id, moves), user))
  {
    var c := RoleFollowed(db.dependents, id, moves, user);
    DeleteAllFaithful(db.dependents, c, user);
    ShrunkOwned(
      db.dependents, DeleteAll(db.dependents, c, user), Gone({}, {}, {id}),
      db.persons.rows.Keys, db.units.rows.Keys);
    assert db.persons.rows.Keys - {} == db.persons.rows.Keys;
    assert db.units.rows.Keys - {} == db.units.rows.Keys;
  }

  // ---------- Every step and every run ----------

  lemma StepKeepsInvariant(db: Db, op: Operation, user: string)
    requires Invariant(db) && Enabled(db, op, user)
    ensures Invariant(Step(db, op, user))
  {
    match op
    case InsertUnit(fields) => InsertUnitKeeps(db, fields, user);
    case InsertLocalized(unit, locale, name) => InsertLocalizedKeeps(db, unit, locale, name, user);
    case UpdateUnit(id, fields) => UpdateUnitKeeps(db, id, fields, user);
    case RemoveUnit(id, children, moves) =>
      if id in db.units.rows {
        RemoveUnitKeeps(db, id, children, moves, user);
      }
    case InsertPerson(fields) => InsertPersonKeeps(db, fields, user);
    case UpdatePerson(id, fields) => UpdatePersonKeeps(db, id, fields, user);
    case RemovePerson(id, moves) =>
      if id in db.persons.rows {
        RemovePersonKeeps(db, id, moves, user);
      }
    case InsertDependent(row) => InsertDependentKeeps(db, row, user);
    case RemoveRole(id, moves) =>
      if id in db.dependents.roles.rows {
        RemoveRoleKeeps(db, id, moves, user);
      }
    case RemoveDependent(kind, id) =>
      DeleteKeeps(db.dependents, db.persons.rows.Keys, db.units.rows.Keys, kind, id, user);
  }

  /** Every log only grew, and every new entry names the user. */
  ghost predicate LogsAppendedBy(db: Db, db': Db, user: string) {
    && AppendedBy(db.persons, db'.persons, user) && AppendedBy(db.units, db'.units, user)
    && AllAppendedBy(db.dependents, db'.dependents, user)
  }

  lemma RowStepAppends(db: Db, op: Operation, user: string)
    requires op.InsertUnit? || op.InsertLocalized? || op.UpdateUnit? || op.InsertPerson? || op.UpdatePerson?
    ensures LogsAppendedBy(db, Step(db, op, user), user)
  {
  }

  lemma RemoveUnitAppends(db: Db, id: Id, children: seq<Id>, moves: seq<Move>, user: string)
    requires Enabled(db, RemoveUnit(id, children, moves), user) && id in db.units.rows
    ensures LogsAppendedBy(db, Step(db, RemoveUnit(id, children, moves), user), user)
  {
    UpdateRowsAppend(db.units, children, WithoutParent, user);
    var c := UnitFollowed(db.dependents, id, moves, user);
    DeleteAllAppends(db.dependents, c, user);
  }

  lemma StepAppends(db: Db, op: Operation, user: string)
    requires Enabled(db, op, user)
    ensures LogsAppendedBy(db, Step(db, op, user), user)
  {
    match op
    case RemoveUnit(id, children, moves) =>
      if id in db.units.rows {
        RemoveUnitAppends(db, id, children, moves, user);
      }
    case RemovePerson(id, moves) =>
      if id in db.persons.rows {
        var c := PersonFollowed(db.dependents, id, moves, user);
        DeleteAllAppends(db.dependents, c, user);
      }
    case RemoveRole(id, moves) =>
      if id in db.dependents.roles.rows {
        var c := RoleFollowed(db.dependents, id, moves, user);
        DeleteAllAppends(db.dependents, c, user);
      }
    case InsertDependent(row) =>
      InsertAppends(db.dependents, db.persons.rows.Keys, db.units.rows.Keys, row, user);
    case RemoveDependent(kind, id) => DeleteAppends(db.dependents, kind, id, user);
    case _ => RowStepAppends(db, op, user);
  }

  datatype Call = Call(op: Operation, user: string)

  /** `after` is reached from `before` by the calls, each one enabled when it is made. */
  ghost predicate Reaches(before: Db, calls: seq<Call>, after: Db)
    decreases calls
  {
    if calls == [] then after == before
    else
      && Enabled(before, calls[0].op, calls[0].user)
      && Reaches(Step(before, calls[0].op, calls[0].user), calls[1..], after)
  }

  lemma {:induction false} RunsKeepInvariant(before: Db, calls: seq<Call>, after: Db)
    requires Invariant(before) && Reaches(before, calls, after)
    ensures Invariant(after)
    decreases calls
  {
    if calls != [] {
      var c := calls[0];
      StepKeepsInvariant(before, c.op, c.user);
      RunsKeepInvariant(Step(before, c.op, c.user), calls[1..], after);
    }
  }

  /** In every state reachable from the empty database the logs rebuild the tables, every search
      vector is current, and every constraint holds. */
  lemma EveryRunKeepsInvariant(calls: seq<Call>, after: Db)
    requires Reaches(EMPTY, calls, after)
    ensures Invariant(after)
  {
    EmptyInvariant();
    RunsKeepInvariant(EMPTY, calls, after);
  }
}
