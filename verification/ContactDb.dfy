/** The contact database as a state machine: each DAO call, with the triggers and the foreign-key
    actions it sets off, is one step. */
module ContactDb {
  import opened Wrappers
  import opened AuditedTables
  import opened Rows = DependentTables
  import opened ForeignKeys

  // ---------- Tables ----------

  type LocaleId = int

  datatype Locale = Locale(code: string, isDefault: bool)

  /** The seeded locale table; no operation changes it. */
  const LOCALES: map<LocaleId, Locale> := map[
    1 := Locale("pt-BR", true),
    2 := Locale("en-US", false),
    3 := Locale("es-AR", false),
    4 := Locale("es-MX", false),
    5 := Locale("fr-FR", false)]

  const ORG_TYPES := {"Group", "Company", "Department", "Division", "Team"}

  /** A text search vector, kept as the texts it is computed from, by weight A, C and B. */
  datatype SearchVector = SearchVector(name: string, taxId: string, keywords: string)

  datatype Unit = Unit(
    parent: Option<Id>,
    orgType: string,
    taxId: Option<string>,
    active: bool,
    keywords: Option<string>,
    vector: SearchVector)

  datatype Localized = Localized(id: Id, name: string)

  /** Kept as the texts it is computed from, by weight A, B, A, C, C and B. */
  datatype PersonVector = PersonVector(
    firstName: string, middleName: string, lastName: string, taxId: string, identification: string, keywords: string)

  datatype Person = Person(
    firstName: string,
    middleName: Option<string>,
    lastName: string,
    taxId: Option<string>,
    identification: Option<string>,
    passport: Option<string>,
    keywords: Option<string>,
    vector: PersonVector)

  /** Names are keyed by their unique constraint on unit and locale. */
  type Names = map<(Id, LocaleId), Localized>

  datatype Db = Db(
    persons: Table<Person>,
    units: Table<Unit>,
    names: Names,
    nextNameId: Id,
    dependents: Dependents)

  function NoRows<R>(): Table<R> {
    Table(map[], [], 1)
  }

  const EMPTY := Db(NoRows(), NoRows(), map[], 1, Dependents(NoRows(), NoRows(), NoRows(), NoRows(), NoRows()))

  /** The columns a caller supplies; an empty string stands for null and parent 0 for no parent. */
  datatype UnitFields = UnitFields(parent: Id, orgType: string, taxId: string, active: bool, keywords: string)

  datatype PersonFields = PersonFields(
    firstName: string, middleName: string, lastName: string, taxId: string, identification: string,
    passport: string, keywords: string)

  datatype Operation =
    | InsertUnit(fields: UnitFields)
    | InsertLocalized(unit: Id, locale: LocaleId, name: string)
    | UpdateUnit(id: Id, fields: UnitFields)
    | RemoveUnit(id: Id, children: seq<Id>, moves: seq<Move>)
    | InsertPerson(person: PersonFields)
    | UpdatePerson(id: Id, person: PersonFields)
    | RemovePerson(id: Id, moves: seq<Move>)
    | InsertDependent(row: Dependent)
    | RemoveRole(id: Id, moves: seq<Move>)
    | RemoveDependent(kind: Kind, id: Id)

  // ---------- Triggers ----------

  function NullIfEmpty(s: string): Option<string> {
    if s == "" then None else Some(s)
  }

  function Coalesce(s: Option<string>): string {
    if s.None? then "" else s.value
  }

  /** The name `fn_orgunit_search_vector` selects: the one in the default locale. */
  function DefaultName(names: Names, id: Id): Option<string> {
    if (id, DefaultLocale()) in names then Some(names[(id, DefaultLocale())].name) else None
  }

  function DefaultLocale(): (l: LocaleId)
    ensures l in LOCALES && LOCALES[l].isDefault
    ensures forall k <- LOCALES :: LOCALES[k].isDefault ==> k == l
  {
    1
  }

  function VectorOf(names: Names, id: Id, u: Unit): SearchVector {
    SearchVector(Coalesce(DefaultName(names, id)), Coalesce(u.taxId), Coalesce(u.keywords))
  }

  function PersonVectorOf(p: Person): PersonVector {
    PersonVector(p.firstName, Coalesce(p.middleName), p.lastName, Coalesce(p.taxId), Coalesce(p.identification),
                 Coalesce(p.keywords))
  }

  /** The row a statement on persons asks for, with the trigger before INSERT or UPDATE OF the columns
      its vector is computed from; the statements set all of these. */
  function PersonRow(f: PersonFields): Person {
    var p := Person(
      f.firstName, NullIfEmpty(f.middleName), f.lastName, NullIfEmpty(f.taxId), NullIfEmpty(f.identification),
      NullIfEmpty(f.passport), NullIfEmpty(f.keywords), PersonVector("", "", "", "", "", ""));
    p.(vector := PersonVectorOf(p))
  }

  /** The trigger before INSERT or UPDATE OF federal_tax_id, keywords. */
  function WithVector(names: Names, id: Id, u: Unit): Unit {
    u.(vector := VectorOf(names, id, u))
  }

  /** The trigger after a change of a localized name: touches the keywords of its unit, which in
      turn fires the unit's own triggers. A unit that is gone is not touched. */
  function RefreshSearch(units: Table<Unit>, names: Names, id: Id, user: string): Table<Unit> {
    if id in units.rows then UpdateRow(units, id, WithVector(names, id, units.rows[id]), user) else units
  }

  // ---------- Constraints ----------

  function ParentOf(fields: UnitFields): Option<Id> {
    if fields.parent == 0 then None else Some(fields.parent)
  }

  /** The row a statement asks for, before its triggers; the vector column is the one it had. */
  function RowOf(fields: UnitFields, vector: SearchVector): Unit {
    Unit(
      ParentOf(fields), fields.orgType, NullIfEmpty(fields.taxId), fields.active, NullIfEmpty(fields.keywords),
      vector)
  }

  /** The CHECK on the type and the self-reference, checked when the row is already in place. */
  predicate UnitAllowed(fields: UnitFields, ids: set<Id>) {
    fields.orgType in ORG_TYPES && (ParentOf(fields).Some? ==> ParentOf(fields).value in ids)
  }

  /** The partial unique index on the tax id: no row but the person's own has it. */
  predicate PersonAllowed(p: Person, id: Id, persons: map<Id, Person>) {
    p.taxId.Some? ==> forall k <- persons :: k != id ==> persons[k].taxId != p.taxId
  }

  // ---------- Steps ----------

  function ChildrenOf(units: map<Id, Unit>, id: Id): set<Id> {
    set c <- units | units[c].parent == Some(id)
  }

  function WithoutParent(u: Unit): Unit {
    u.(parent := None)
  }

  function NamesWithout(names: Names, id: Id): Names {
    map k <- names | k.0 != id :: names[k]
  }

  /** The foreign-key actions of a deletion may be taken in any order, each on its rows in any order. */
  predicate Enabled(db: Db, op: Operation, user: string) {
    match op
    case RemoveUnit(id, children, moves) =>
      id in db.units.rows ==>
        && Enumerates(children, ChildrenOf(db.units.rows - {id}, id))
        && Finishes(Work(db.dependents, UnitActions(id)), moves, user)
    case RemovePerson(id, moves) =>
      id in db.persons.rows ==> Finishes(Work(db.dependents, PersonActions(id)), moves, user)
    case RemoveRole(id, moves) =>
      id in db.dependents.roles.rows ==> Finishes(RoleWork(db.dependents, id, user), moves, user)
    case _ => true
  }

  /** One operation, done under the given audit user. The triggers of a table fire in the order of
      their names, so the foreign keys act before the audit trigger logs the deleted row. A violated
      constraint undoes everything but the key already drawn from a sequence. */
  function Step(db: Db, op: Operation, user: string): Db
    requires Enabled(db, op, user)
  {
    match op
    case InsertUnit(fields) =>
      var id := db.units.nextId;
      if UnitAllowed(fields, db.units.rows.Keys + {id}) then
        var row := RowOf(fields, SearchVector("", "", ""));
        db.(units := InsertRow(db.units, WithVector(db.names, id, row), user))
      else db.(units := FailInsert(db.units))
    case InsertLocalized(unit, locale, name) =>
      var db' := db.(nextNameId := db.nextNameId + 1);
      if unit in db.units.rows && locale in LOCALES && (unit, locale) !in db.names then
        var names := db.names[(unit, locale) := Localized(db.nextNameId, name)];
        db'.(names := names, units := RefreshSearch(db.units, names, unit, user))
      else db'
    case UpdateUnit(id, fields) =>
      if id in db.units.rows && UnitAllowed(fields, db.units.rows.Keys) then
        var row := RowOf(fields, db.units.rows[id].vector);
        db.(units := UpdateRow(db.units, id, WithVector(db.names, id, row), user))
      else db
    case RemoveUnit(id, children, moves) =>
      if id in db.units.rows then
        db.(units := DeleteRow(UpdateRows(db.units, children, WithoutParent, user), id, user),
            names := NamesWithout(db.names, id),
            dependents := Followed(Work(db.dependents, UnitActions(id)), moves, user).d)
      else db
    case InsertPerson(fields) =>
      var row := PersonRow(fields);
      db.(persons := Inserted(db.persons, PersonAllowed(row, db.persons.nextId, db.persons.rows), row, user))
    case UpdatePerson(id, fields) =>
      if id in db.persons.rows && PersonAllowed(PersonRow(fields), id, db.persons.rows) then
        db.(persons := UpdateRow(db.persons, id, PersonRow(fields), user))
      else db
    case RemovePerson(id, moves) =>
      if id in db.persons.rows then
        db.(persons := DeleteRow(db.persons, id, user),
            dependents := Followed(Work(db.dependents, PersonActions(id)), moves, user).d)
      else db
    case InsertDependent(row) =>
      db.(dependents := Rows.Insert(db.dependents, db.persons.rows.Keys, db.units.rows.Keys, row, user))
    case RemoveRole(id, moves) =>
      if id in db.dependents.roles.rows then
        db.(dependents := Followed(RoleWork(db.dependents, id, user), moves, user).d)
      else db
    case RemoveDependent(kind, id) =>
      db.(dependents := Rows.Delete(db.dependents, kind, id, user))
  }
}
