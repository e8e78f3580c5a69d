/** The audited tables of `contact/db/contact_ddl.sql` whose rows belong to persons, units and roles
    and go with them: phones, roles, person-unit relations, role assignments and visibility rules.
    A role goes with its unit, and assignments and rules go with a role, so cascades have two levels
    and may reach a row over several foreign keys. */
module DependentTables {
  import opened Wrappers
  import opened AuditedTables

  // ---------- Rows ----------

  datatype Phone = Phone(person: Option<Id>, unit: Option<Id>, number: string)

  datatype Role = Role(unit: Option<Id>, active: bool)

  datatype Relation = Relation(person: Id, unit: Id, kind: string)

  datatype Assignment = Assignment(person: Id, role: Id)

  /** The one viewer that the CHECK constraint allows a rule. */
  datatype Viewer = ViewerPerson(person: Id) | ViewerRole(role: Id) | ViewerUnit(unit: Id)

  datatype Rule = Rule(owner: Id, viewer: Viewer, category: string)

  datatype Dependents = Dependents(
    phones: Table<Phone>,
    roles: Table<Role>,
    relations: Table<Relation>,
    assignments: Table<Assignment>,
    rules: Table<Rule>)

  // ---------- Constraints ----------

  /** The CHECK that a phone has one owner, and the two foreign keys. */
  predicate PhoneAllowed(p: Phone, persons: set<Id>, units: set<Id>) {
    && (p.person.Some? <==> p.unit.None?)
    && (p.person.Some? ==> p.person.value in persons)
    && (p.unit.Some? ==> p.unit.value in units)
  }

  predicate RoleAllowed(r: Role, units: set<Id>) {
    r.unit.Some? ==> r.unit.value in units
  }

  predicate RelationAllowed(r: Relation, persons: set<Id>, units: set<Id>) {
    r.person in persons && r.unit in units
  }

  predicate AssignmentAllowed(a: Assignment, persons: set<Id>, roles: set<Id>) {
    a.person in persons && a.role in roles
  }

  predicate RuleAllowed(r: Rule, persons: set<Id>, units: set<Id>, roles: set<Id>) {
    && r.owner in persons
    && match r.viewer
       case ViewerPerson(id) => id in persons
       case ViewerRole(role) => role in roles
       case ViewerUnit(unit) => unit in units
  }

  /** No row is there already: the UNIQUE constraints on all of a row's columns in the model. */
  predicate NewRow<R(==)>(r: R, rows: map<Id, R>) {
    forall k <- rows :: rows[k] != r
  }

  // ---------- Insertions and single deletions ----------

  datatype Dependent =
    | APhone(phone: Phone)
    | ARole(role: Role)
    | ARelation(relation: Relation)
    | AnAssignment(assignment: Assignment)
    | ARule(rule: Rule)

  /** Inserts a row, or only draws a key when a constraint refuses it. */
  function Inserted<R>(t: Table<R>, allowed: bool, r: R, user: string): Table<R> {
    if allowed then InsertRow(t, r, user) else FailInsert(t)
  }

  function Insert(d: Dependents, persons: set<Id>, units: set<Id>, x: Dependent, user: string): Dependents {
    var roles := d.roles.rows.Keys;
    match x
    case APhone(p) => d.(phones := Inserted(d.phones, PhoneAllowed(p, persons, units), p, user))
    case ARole(r) => d.(roles := Inserted(d.roles, RoleAllowed(r, units), r, user))
    case ARelation(r) =>
      d.(relations := Inserted(
        d.relations, RelationAllowed(r, persons, units) && NewRow(r, d.relations.rows), r, user))
    case AnAssignment(a) =>
      d.(assignments := Inserted(
        d.assignments, AssignmentAllowed(a, persons, roles) && NewRow(a, d.assignments.rows), a, user))
    case ARule(r) => d.(rules := Inserted(d.rules, RuleAllowed(r, persons, units, roles), r, user))
  }

  /** The tables from which the DAOs delete a row that nothing refers to. */
  datatype Kind = Phones | Assignments | Rules

  function Deleted<R>(t: Table<R>, id: Id, user: string): Table<R> {
    if id in t.rows then DeleteRow(t, id, user) else t
  }

  function Delete(d: Dependents, kind: Kind, id: Id, user: string): Dependents {
    match kind
    case Phones => d.(phones := Deleted(d.phones, id, user))
    case Assignments => d.(assignments := Deleted(d.assignments, id, user))
    case Rules => d.(rules := Deleted(d.rules, id, user))
  }

  // ---------- Cascades ----------

  /** The rows whose deletion sets off a cascade, and the rows that should go with them. What the
      foreign keys do one after the other is in ForeignKeys.dfy. */
  datatype Gone = Gone(persons: set<Id>, units: set<Id>, roles: set<Id>)

  /** The first level of a unit's cascade is the second level's origin. */
  function RolesGone(d: Dependents, g: Gone): set<Id> {
    set k <- d.roles.rows | k in g.roles || (d.roles.rows[k].unit.Some? && d.roles.rows[k].unit.value in g.units)
  }

  function PhonesGone(d: Dependents, g: Gone): set<Id> {
    set k <- d.phones.rows |
      || (d.phones.rows[k].person.Some? && d.phones.rows[k].person.value in g.persons)
      || (d.phones.rows[k].unit.Some? && d.phones.rows[k].unit.value in g.units)
  }

  function RelationsGone(d: Dependents, g: Gone): set<Id> {
    set k <- d.relations.rows | d.relations.rows[k].person in g.persons || d.relations.rows[k].unit in g.units
  }

  function AssignmentsGone(d: Dependents, g: Gone): set<Id> {
    set k <- d.assignments.rows |
      d.assignments.rows[k].person in g.persons || d.assignments.rows[k].role in RolesGone(d, g)
  }

  predicate RuleGone(r: Rule, g: Gone, roles: set<Id>) {
    || r.owner in g.persons
    || match r.viewer
       case ViewerPerson(id) => id in g.persons
       case ViewerRole(role) => role in roles
       case ViewerUnit(unit) => unit in g.units
  }

  function RulesGone(d: Dependents, g: Gone): set<Id> {
    set k <- d.rules.rows | RuleGone(d.rules.rows[k], g, RolesGone(d, g))
  }

  /** The orders in which a cascade reaches the rows of each table. */
  datatype Cascade = Cascade(
    phones: seq<Id>, roles: seq<Id>, relations: seq<Id>, assignments: seq<Id>, rules: seq<Id>)

  /** Each order lists exactly the rows the cascade reaches, each of them once, however many
      foreign keys lead there. */
  predicate Covers(d: Dependents, g: Gone, c: Cascade) {
    && Enumerates(c.phones, PhonesGone(d, g))
    && Enumerates(c.roles, RolesGone(d, g))
    && Enumerates(c.relations, RelationsGone(d, g))
    && Enumerates(c.assignments, AssignmentsGone(d, g))
    && Enumerates(c.rules, RulesGone(d, g))
  }

  /** Each order lists rows that are there, each of them once. */
  predicate Deletable(d: Dependents, c: Cascade) {
    && Distinct(c.phones) && (forall k <- c.phones :: k in d.phones.rows)
    && Distinct(c.roles) && (forall k <- c.roles :: k in d.roles.rows)
    && Distinct(c.relations) && (forall k <- c.relations :: k in d.relations.rows)
    && Distinct(c.assignments) && (forall k <- c.assignments :: k in d.assignments.rows)
    && Distinct(c.rules) && (forall k <- c.rules :: k in d.rules.rows)
  }

  function DeleteAll(d: Dependents, c: Cascade, user: string): Dependents
    requires Deletable(d, c)
  {
    Dependents(
      DeleteRows(d.phones, c.phones, user),
      DeleteRows(d.roles, c.roles, user),
      DeleteRows(d.relations, c.relations, user),
      DeleteRows(d.assignments, c.assignments, user),
      DeleteRows(d.rules, c.rules, user))
  }

  // ---------- What every step keeps ----------

  ghost predicate PhonesOwned(rows: map<Id, Phone>, persons: set<Id>, units: set<Id>) {
    forall k <- rows :: PhoneAllowed(rows[k], persons, units)
  }

  ghost predicate RolesOwned(rows: map<Id, Role>, units: set<Id>) {
    forall k <- rows :: RoleAllowed(rows[k], units)
  }

  ghost predicate RelationsOwned(rows: map<Id, Relation>, persons: set<Id>, units: set<Id>) {
    forall k <- rows :: RelationAllowed(rows[k], persons, units)
  }

  ghost predicate AssignmentsOwned(rows: map<Id, Assignment>, persons: set<Id>, roles: set<Id>) {
    forall k <- rows :: AssignmentAllowed(rows[k], persons, roles)
  }

  ghost predicate RulesOwned(rows: map<Id, Rule>, persons: set<Id>, units: set<Id>, roles: set<Id>) {
    forall k <- rows :: RuleAllowed(rows[k], persons, units, roles)
  }

  ghost predicate AllDifferent<R>(rows: map<Id, R>) {
    forall i, j :: i in rows && j in rows && i != j ==> rows[i] != rows[j]
  }

  /** The foreign keys, CHECK and UNIQUE constraints, over the persons and units there are. */
  ghost predicate Owned(d: Dependents, persons: set<Id>, units: set<Id>) {
    && PhonesOwned(d.phones.rows, persons, units)
    && RolesOwned(d.roles.rows, units)
    && RelationsOwned(d.relations.rows, persons, units) && AllDifferent(d.relations.rows)
    && AssignmentsOwned(d.assignments.rows, persons, d.roles.rows.Keys) && AllDifferent(d.assignments.rows)
    && RulesOwned(d.rules.rows, persons, units, d.roles.rows.Keys)
  }

  ghost predicate AllFaithful(d: Dependents) {
    && Faithful(d.phones) && Faithful(d.roles) && Faithful(d.relations)
    && Faithful(d.assignments) && Faithful(d.rules)
  }

  lemma MorePersonsAndUnits(d: Dependents, persons: set<Id>, units: set<Id>, persons': set<Id>, units': set<Id>)
    requires Owned(d, persons, units) && persons <= persons' && units <= units'
    ensures Owned(d, persons', units')
  {
  }

  lemma InsertOwned(d: Dependents, persons: set<Id>, units: set<Id>, x: Dependent, user: string)
    requires Owned(d, persons, units)
    ensures Owned(Insert(d, persons, units, x, user), persons, units)
  {
    match x
    case APhone(_) =>
    case ARole(_) =>
    case ARelation(_) =>
    case AnAssignment(_) =>
    case ARule(_) =>
  }

  lemma InsertedFaithful<R>(t: Table<R>, allowed: bool, r: R, user: string)
    requires Faithful(t)
    ensures Faithful(Inserted(t, allowed, r, user))
  {
    RowStatementsFaithful(t, t.nextId, r, user);
  }

  lemma DeletedFaithful<R>(t: Table<R>, id: Id, user: string)
    requires Faithful(t)
    ensures Faithful(Deleted(t, id, user))
  {
    if id in t.rows {
      RowStatementsFaithful(t, id, t.rows[id], user);
    }
  }

  lemma InsertFaithful(d: Dependents, persons: set<Id>, units: set<Id>, x: Dependent, user: string)
    requires AllFaithful(d)
    ensures AllFaithful(Insert(d, persons, units, x, user))
  {
    var roles := d.roles.rows.Keys;
    match x
    case APhone(p) => InsertedFaithful(d.phones, PhoneAllowed(p, persons, units), p, user);
    case ARole(r) => InsertedFaithful(d.roles, RoleAllowed(r, units), r, user);
    case ARelation(r) =>
      InsertedFaithful(d.relations, RelationAllowed(r, persons, units) && NewRow(r, d.relations.rows), r, user);
    case AnAssignment(a) =>
      InsertedFaithful(d.assignments, AssignmentAllowed(a, persons, roles) && NewRow(a, d.assignments.rows), a, user);
    case ARule(r) => InsertedFaithful(d.rules, RuleAllowed(r, persons, units, roles), r, user);
  }

  lemma DeleteKeeps(d: Dependents, persons: set<Id>, units: set<Id>, kind: Kind, id: Id, user: string)
    requires Owned(d, persons, units) && AllFaithful(d)
    ensures Owned(Delete(d, kind, id, user), persons, units) && AllFaithful(Delete(d, kind, id, user))
  {
    DeletedFaithful(d.phones, id, user);
    DeletedFaithful(d.assignments, id, user);
    DeletedFaithful(d.rules, id, user);
  }

  lemma DeleteAllFaithful(d: Dependents, c: Cascade, user: string)
    requires Deletable(d, c) && AllFaithful(d)
    ensures AllFaithful(DeleteAll(d, c, user))
  {
    DeleteRowsFaithful(d.phones, c.phones, user);
    DeleteRowsFaithful(d.roles, c.roles, user);
    DeleteRowsFaithful(d.relations, c.relations, user);
    DeleteRowsFaithful(d.assignments, c.assignments, user);
    DeleteRowsFaithful(d.rules, c.rules, user);
  }

  lemma SetOfEnumerated(ids: seq<Id>, s: set<Id>)
    requires Enumerates(ids, s)
    ensures (set id <- ids) == s
  {
    var listed := set id <- ids;
    assert forall id <- s :: id in listed;
    assert forall id <- listed :: id in s;
  }

  /** The tables without the rows that belong to what is gone. */
  ghost predicate Shrunk(d: Dependents, d': Dependents, g: Gone) {
    && d'.phones.rows == d.phones.rows - PhonesGone(d, g)
    && d'.roles.rows == d.roles.rows - RolesGone(d, g)
    && d'.relations.rows == d.relations.rows - RelationsGone(d, g)
    && d'.assignments.rows == d.assignments.rows - AssignmentsGone(d, g)
    && d'.rules.rows == d.rules.rows - RulesGone(d, g)
  }

  lemma CoveredShrinks(d: Dependents, g: Gone, c: Cascade, user: string)
    requires Covers(d, g, c)
    ensures Deletable(d, c) && Shrunk(d, DeleteAll(d, c, user), g)
  {
    SetOfEnumerated(c.phones, PhonesGone(d, g));
    SetOfEnumerated(c.roles, RolesGone(d, g));
    SetOfEnumerated(c.relations, RelationsGone(d, g));
    SetOfEnumerated(c.assignments, AssignmentsGone(d, g));
    SetOfEnumerated(c.rules, RulesGone(d, g));
  }

  /** No reference to a row that is gone is left. */
  lemma ShrunkOwned(d: Dependents, d': Dependents, g: Gone, persons: set<Id>, units: set<Id>)
    requires Shrunk(d, d', g) && Owned(d, persons, units)
    ensures Owned(d', persons - g.persons, units - g.units)
  {
  }

  // ---------- Who is named in the logs ----------

  ghost predicate AllAppendedBy(d: Dependents, d': Dependents, user: string) {
    && AppendedBy(d.phones, d'.phones, user) && AppendedBy(d.roles, d'.roles, user)
    && AppendedBy(d.relations, d'.relations, user) && AppendedBy(d.assignments, d'.assignments, user)
    && AppendedBy(d.rules, d'.rules, user)
  }

  lemma InsertAppends(d: Dependents, persons: set<Id>, units: set<Id>, x: Dependent, user: string)
    ensures AllAppendedBy(d, Insert(d, persons, units, x, user), user)
  {
  }

  lemma DeleteAppends(d: Dependents, kind: Kind, id: Id, user: string)
    ensures AllAppendedBy(d, Delete(d, kind, id, user), user)
  {
  }

  lemma DeleteAllAppends(d: Dependents, c: Cascade, user: string)
    requires Deletable(d, c)
    ensures AllAppendedBy(d, DeleteAll(d, c, user), user)
  {
    DeleteRowsAppend(d.phones, c.phones, user);
    DeleteRowsAppend(d.roles, c.roles, user);
    DeleteRowsAppend(d.relations, c.relations, user);
    DeleteRowsAppend(d.assignments, c.assignments, user);
    DeleteRowsAppend(d.rules, c.rules, user);
  }
}
