/** What each call on the contact database does to the rows, column by column, and when a constraint
    refuses it. */
module ContactEffects {
  import opened Wrappers
  import opened AuditedTables
  import opened Rows = DependentTables
  import opened ForeignKeys
  import opened ContactDb
  import opened ContactInvariants

  // ---------- Single rows ----------

  /** One row more, under the next key, and one log entry. */
  ghost predicate RowInserted<R>(t: Table<R>, t': Table<R>, user: string) {
    && t.nextId in t'.rows && t'.nextId == t.nextId + 1
    && t'.rows == t.rows[t.nextId := t'.rows[t.nextId]]
    && t'.log == t.log + [Entry(C, user, None, Some((t.nextId, t'.rows[t.nextId])))]
  }

  /** A refused row has only drawn a key. */
  ghost predicate RowRefused<R>(t: Table<R>, t': Table<R>) {
    t'.rows == t.rows && t'.log == t.log && t'.nextId == t.nextId + 1
  }

  /** One row changed, and one log entry. */
  ghost predicate RowUpdated<R>(t: Table<R>, t': Table<R>, id: Id, user: string) {
    && id in t.rows && id in t'.rows && t'.nextId == t.nextId
    && t'.rows == t.rows[id := t'.rows[id]]
    && t'.log == t.log + [Entry(U, user, Some((id, t.rows[id])), Some((id, t'.rows[id])))]
  }

  ghost predicate RowDeleted<R>(t: Table<R>, t': Table<R>, id: Id, user: string) {
    && id in t.rows && t'.nextId == t.nextId
    && t'.rows == (map k <- t.rows | k != id :: t.rows[k])
    && t'.log == t.log + [Entry(D, user, Some((id, t.rows[id])), None)]
  }

  // ---------- Columns ----------

  /** An empty text is stored as null. */
  ghost predicate Stores(column: Option<string>, text: string) {
    if text == "" then column.None? else column == Some(text)
  }

  /** A null column is shown as the empty text. */
  ghost predicate Shows(text: string, column: Option<string>) {
    if column.None? then text == "" else text == column.value
  }

  /** The columns of the row are the caller's; parent 0 is no parent. */
  ghost predicate UnitColumns(u: Unit, f: UnitFields) {
    && (if f.parent == 0 then u.parent.None? else u.parent == Some(f.parent))
    && u.orgType == f.orgType && u.active == f.active
    && Stores(u.taxId, f.taxId) && Stores(u.keywords, f.keywords)
  }

  ghost predicate PersonColumns(p: Person, f: PersonFields) {
    && p.firstName == f.firstName && p.lastName == f.lastName
    && Stores(p.middleName, f.middleName) && Stores(p.taxId, f.taxId) && Stores(p.keywords, f.keywords)
    && Stores(p.identification, f.identification) && Stores(p.passport, f.passport)
  }

  /** The vector shows the unit's name in the default locale, or no name if it has none there, and
      the row's own tax id and keywords. */
  ghost predicate UnitVector(names: Names, id: Id, u: Unit) {
    && (forall l <- LOCALES :: LOCALES[l].isDefault && (id, l) in names ==> u.vector.name == names[(id, l)].name)
    && ((forall l <- LOCALES :: LOCALES[l].isDefault ==> (id, l) !in names) ==> u.vector.name == "")
    && Shows(u.vector.taxId, u.taxId) && Shows(u.vector.keywords, u.keywords)
  }

  ghost predicate VectorOfPerson(p: Person) {
    && p.vector.firstName == p.firstName && p.vector.lastName == p.lastName
    && Shows(p.vector.middleName, p.middleName) && Shows(p.vector.taxId, p.taxId)
    && Shows(p.vector.identification, p.identification) && Shows(p.vector.keywords, p.keywords)
  }

  lemma InSyncByColumn(names: Names, units: map<Id, Unit>)
    ensures InSync(names, units) <==> forall id <- units :: UnitVector(names, id, units[id])
  {
    forall id <- units
      ensures units[id].vector == VectorOf(names, id, units[id]) <==> UnitVector(names, id, units[id])
    {
      VectorByColumn(names, id, units[id]);
    }
  }

  lemma VectorByColumn(names: Names, id: Id, u: Unit)
    ensures u.vector == VectorOf(names, id, u) <==> UnitVector(names, id, u)
  {
    var d := DefaultLocale();
    assert d in LOCALES && LOCALES[d].isDefault;
  }

  /** In every state reached from the empty database each search vector shows what its row and names
      hold at that time, column by column. */
  lemma EveryVectorIsCurrent(calls: seq<Call>, after: Db)
    requires Reaches(EMPTY, calls, after)
    ensures forall id <- after.units.rows :: UnitVector(after.names, id, after.units.rows[id])
    ensures forall id <- after.persons.rows :: VectorOfPerson(after.persons.rows[id])
  {
    EveryRunKeepsInvariant(calls, after);
    InSyncByColumn(after.names, after.units.rows);
  }

  // ---------- Units ----------

  /** The CHECK on the type and the foreign key to the parent. */
  ghost predicate UnitAccepted(f: UnitFields, ids: set<Id>) {
    && (f.orgType == "Group" || f.orgType == "Company" || f.orgType == "Department" || f.orgType == "Division"
        || f.orgType == "Team")
    && (f.parent == 0 || f.parent in ids)
  }

  /** The new unit may name itself as its parent: the foreign key is checked when the row is there. */
  lemma InsertUnitEffect(db: Db, f: UnitFields, user: string)
    ensures var db' := Step(db, InsertUnit(f), user); var id := db.units.nextId;
      && db' == db.(units := db'.units)
      && if UnitAccepted(f, db.units.rows.Keys + {id})
         then RowInserted(db.units, db'.units, user) && UnitColumns(db'.units.rows[id], f)
         else RowRefused(db.units, db'.units)
  {
  }

  lemma UpdateUnitEffect(db: Db, id: Id, f: UnitFields, user: string)
    ensures var db' := Step(db, UpdateUnit(id, f), user);
      && db' == db.(units := db'.units)
      && if id in db.units.rows && UnitAccepted(f, db.units.rows.Keys)
         then RowUpdated(db.units, db'.units, id, user) && UnitColumns(db'.units.rows[id], f)
         else db'.units == db.units
  {
  }

  /** The unit is named, and its vector shows a name in the default locale; a name in another locale
      leaves the vector as it is. */
  lemma InsertLocalizedEffect(db: Db, unit: Id, locale: LocaleId, name: string, user: string)
    requires InSync(db.names, db.units.rows)
    ensures var db' := Step(db, InsertLocalized(unit, locale, name), user);
      && db' == db.(units := db'.units, names := db'.names, nextNameId := db.nextNameId + 1)
      && if unit in db.units.rows && locale in LOCALES && (unit, locale) !in db.names
         then
           && db'.names == db.names[(unit, locale) := Localized(db.nextNameId, name)]
           && RowUpdated(db.units, db'.units, unit, user)
           && var u := db.units.rows[unit];
              db'.units.rows[unit] ==
                if LOCALES[locale].isDefault then u.(vector := u.vector.(name := name)) else u
         else db'.names == db.names && db'.units == db.units
  {
  }

  // ---------- Persons ----------

  lemma InsertPersonEffect(db: Db, f: PersonFields, user: string)
    requires db.persons.nextId !in db.persons.rows
    ensures var db' := Step(db, InsertPerson(f), user);
      && db' == db.(persons := db'.persons)
      && if f.taxId == "" || forall k <- db.persons.rows :: db.persons.rows[k].taxId != Some(f.taxId)
         then RowInserted(db.persons, db'.persons, user) && PersonColumns(db'.persons.rows[db.persons.nextId], f)
         else RowRefused(db.persons, db'.persons)
  {
  }

  lemma UpdatePersonEffect(db: Db, id: Id, f: PersonFields, user: string)
    ensures var db' := Step(db, UpdatePerson(id, f), user);
      && db' == db.(persons := db'.persons)
      && if id in db.persons.rows
            && (f.taxId == "" || forall k <- db.persons.rows :: k != id ==> db.persons.rows[k].taxId != Some(f.taxId))
         then RowUpdated(db.persons, db'.persons, id, user) && PersonColumns(db'.persons.rows[id], f)
         else db'.persons == db.persons
  {
  }

  // ---------- Rows that belong to others ----------

  /** Each table but the one of the row is as it was, and the row is inserted exactly when its
      owners exist and, for relations and assignments, no equal row does. */
  lemma InsertDependentEffect(d: Dependents, persons: set<Id>, units: set<Id>, x: Dependent, user: string)
    ensures var d' := Rows.Insert(d, persons, units, x, user); var roles := d.roles.rows.Keys;
      match x
      case APhone(p) =>
        && d' == d.(phones := d'.phones)
        && if (p.person.Some? && p.person.value in persons && p.unit.None?)
              || (p.unit.Some? && p.unit.value in units && p.person.None?)
           then RowInserted(d.phones, d'.phones, user) && d'.phones.rows[d.phones.nextId] == p
           else RowRefused(d.phones, d'.phones)
      case ARole(r) =>
        && d' == d.(roles := d'.roles)
        && if r.unit.None? || r.unit.value in units
           then RowInserted(d.roles, d'.roles, user) && d'.roles.rows[d.roles.nextId] == r
           else RowRefused(d.roles, d'.roles)
      case ARelation(r) =>
        && d' == d.(relations := d'.relations)
        && if r.person in persons && r.unit in units && forall k <- d.relations.rows :: d.relations.rows[k] != r
           then RowInserted(d.relations, d'.relations, user) && d'.relations.rows[d.relations.nextId] == r
           else RowRefused(d.relations, d'.relations)
      case AnAssignment(a) =>
        && d' == d.(assignments := d'.assignments)
        && if a.person in persons && a.role in roles && forall k <- d.assignments.rows :: d.assignments.rows[k] != a
           then RowInserted(d.assignments, d'.assignments, user) && d'.assignments.rows[d.assignments.nextId] == a
           else RowRefused(d.assignments, d'.assignments)
      case ARule(r) =>
        && d' == d.(rules := d'.rules)
        && if r.owner in persons
              && (r.viewer.ViewerPerson? ==> r.viewer.person in persons)
              && (r.viewer.ViewerRole? ==> r.viewer.role in roles)
              && (r.viewer.ViewerUnit? ==> r.viewer.unit in units)
           then RowInserted(d.rules, d'.rules, user) && d'.rules.rows[d.rules.nextId] == r
           else RowRefused(d.rules, d'.rules)
  {
  }

  lemma RemoveDependentEffect(d: Dependents, kind: Kind, id: Id, user: string)
    ensures var d' := Rows.Delete(d, kind, id, user);
      match kind
      case Phones =>
        && d' == d.(phones := d'.phones)
        && if id in d.phones.rows then RowDeleted(d.phones, d'.phones, id, user) else d'.phones == d.phones
      case Assignments =>
        && d' == d.(assignments := d'.assignments)
        && if id in d.assignments.rows then RowDeleted(d.assignments, d'.assignments, id, user)
           else d'.assignments == d.assignments
      case Rules =>
        && d' == d.(rules := d'.rules)
        && if id in d.rules.rows then RowDeleted(d.rules, d'.rules, id, user) else d'.rules == d.rules
  {
  }

  // ---------- Deletions ----------

  /** Whether a role is one of the unit's. */
  ghost predicate OfUnit(roles: map<Id, Role>, role: Id, unit: Id) {
    role in roles && roles[role].unit == Some(unit)
  }

  /** The unit's phones, roles and relations are gone, the assignments of its roles, and the rules for
      it or its roles as viewer; every other row is as it was. */
  ghost predicate WithoutUnit(d: Dependents, d': Dependents, id: Id) {
    && d'.phones.rows == (map k <- d.phones.rows | d.phones.rows[k].unit != Some(id) :: d.phones.rows[k])
    && d'.roles.rows == (map k <- d.roles.rows | d.roles.rows[k].unit != Some(id) :: d.roles.rows[k])
    && d'.relations.rows == (map k <- d.relations.rows | d.relations.rows[k].unit != id :: d.relations.rows[k])
    && d'.assignments.rows ==
       (map k <- d.assignments.rows | !OfUnit(d.roles.rows, d.assignments.rows[k].role, id) :: d.assignments.rows[k])
    && d'.rules.rows ==
       (map k <- d.rules.rows | d.rules.rows[k].viewer != ViewerUnit(id)
          && !(d.rules.rows[k].viewer.ViewerRole? && OfUnit(d.roles.rows, d.rules.rows[k].viewer.role, id))
          :: d.rules.rows[k])
  }

  /** The person's phones, relations, assignments and rules are gone, and the rules for the person as
      viewer. */
  ghost predicate WithoutPerson(d: Dependents, d': Dependents, id: Id) {
    && d'.phones.rows == (map k <- d.phones.rows | d.phones.rows[k].person != Some(id) :: d.phones.rows[k])
    && d'.roles.rows == d.roles.rows
    && d'.relations.rows == (map k <- d.relations.rows | d.relations.rows[k].person != id :: d.relations.rows[k])
    && d'.assignments.rows ==
       (map k <- d.assignments.rows | d.assignments.rows[k].person != id :: d.assignments.rows[k])
    && d'.rules.rows ==
       (map k <- d.rules.rows | d.rules.rows[k].owner != id && d.rules.rows[k].viewer != ViewerPerson(id)
          :: d.rules.rows[k])
  }

  ghost predicate WithoutRole(d: Dependents, d': Dependents, id: Id) {
    && d'.phones.rows == d.phones.rows && d'.relations.rows == d.relations.rows
    && d'.roles.rows == (map k <- d.roles.rows | k != id :: d.roles.rows[k])
    && d'.assignments.rows ==
       (map k <- d.assignments.rows | d.assignments.rows[k].role != id :: d.assignments.rows[k])
    && d'.rules.rows == (map k <- d.rules.rows | d.rules.rows[k].viewer != ViewerRole(id) :: d.rules.rows[k])
  }

  lemma ShrunkByUnit(d: Dependents, d': Dependents, id: Id)
    requires Shrunk(d, d', Gone({}, {id}, {}))
    ensures WithoutUnit(d, d', id)
  {
    var g := Gone({}, {id}, {});
    assert forall k :: k in RolesGone(d, g) <==> OfUnit(d.roles.rows, k, id);
    assert forall k <- d.assignments.rows ::
      k in AssignmentsGone(d, g) <==> OfUnit(d.roles.rows, d.assignments.rows[k].role, id);
    assert forall k <- d.rules.rows :: k in RulesGone(d, g) <==> RuleGone(d.rules.rows[k], g, RolesGone(d, g));
  }

  lemma ShrunkByPerson(d: Dependents, d': Dependents, id: Id)
    requires Shrunk(d, d', Gone({id}, {}, {}))
    ensures WithoutPerson(d, d', id)
  {
    var g := Gone({id}, {}, {});
    assert RolesGone(d, g) == {};
    assert forall k <- d.rules.rows :: k in RulesGone(d, g) <==> RuleGone(d.rules.rows[k], g, {});
  }

  lemma ShrunkByRole(d: Dependents, d': Dependents, id: Id)
    requires id in d.roles.rows && Shrunk(d, d', Gone({}, {}, {id}))
    ensures WithoutRole(d, d', id)
  {
    var g := Gone({}, {}, {id});
    assert PhonesGone(d, g) == {} && RelationsGone(d, g) == {} && RolesGone(d, g) == {id};
    assert forall k <- d.rules.rows :: k in RulesGone(d, g) <==> RuleGone(d.rules.rows[k], g, {id});
  }

  /** The children of the unit have no parent, its names are gone, and so is what belongs to it. */
  ghost predicate UnitGone(db: Db, db': Db, id: Id) {
    && (forall u :: u in db'.units.rows <==> u in db.units.rows && u != id)
    && (forall u <- db'.units.rows :: db'.units.rows[u] ==
         if db.units.rows[u].parent == Some(id) then db.units.rows[u].(parent := None) else db.units.rows[u])
    && db'.names == (map k <- db.names | k.0 != id :: db.names[k])
    && db'.persons == db.persons && db'.nextNameId == db.nextNameId && db'.units.nextId == db.units.nextId
    && WithoutUnit(db.dependents, db'.dependents, id)
  }

  lemma RemoveUnitByColumn(db: Db, id: Id, children: seq<Id>, moves: seq<Move>, user: string)
    requires Enabled(db, RemoveUnit(id, children, moves), user)
    ensures var db' := Step(db, RemoveUnit(id, children, moves), user);
      if id in db.units.rows then UnitGone(db, db', id) else db' == db
  {
    if id in db.units.rows {
      RemoveUnitEffect(db, id, children, moves, user);
      ShrunkByUnit(db.dependents, Step(db, RemoveUnit(id, children, moves), user).dependents, id);
    }
  }

  /** The person's row and all that belongs to the person is gone. */
  lemma RemovePersonEffect(db: Db, id: Id, moves: seq<Move>, user: string)
    requires Enabled(db, RemovePerson(id, moves), user)
    ensures var db' := Step(db, RemovePerson(id, moves), user);
      && db' == db.(persons := db'.persons, dependents := db'.dependents)
      && if id in db.persons.rows
         then RowDeleted(db.persons, db'.persons, id, user) && WithoutPerson(db.dependents, db'.dependents, id)
         else db' == db
  {
    if id in db.persons.rows {
      var c := PersonFollowed(db.dependents, id, moves, user);
      ShrunkByPerson(db.dependents, Step(db, RemovePerson(id, moves), user).dependents, id);
    }
  }

  lemma RemoveRoleEffect(db: Db, id: Id, moves: seq<Move>, user: string)
    requires Enabled(db, RemoveRole(id, moves), user)
    ensures var db' := Step(db, RemoveRole(id, moves), user);
      && db' == db.(dependents := db'.dependents)
      && if id in db.dependents.roles.rows then WithoutRole(db.dependents, db'.dependents, id) else db' == db
  {
    if id in db.dependents.roles.rows {
      var c := RoleFollowed(db.dependents, id, moves, user);
      ShrunkByRole(db.dependents, Step(db, RemoveRole(id, moves), user).dependents, id);
    }
  }
}
