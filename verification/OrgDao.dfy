/** `OrgDAO` of `contact/data/org_dao.hpp` working on the tables in place. Each call is one step of
    the state machine of ContactDb, and so keeps its invariant. */
module OrgDaos {
  import opened Wrappers
  import opened Sequences
  import opened AuditedTables
  import opened Rows = DependentTables
  import opened ForeignKeys
  import opened ContactDb
  import opened ContactInvariants
  import opened ContactEffects

  class OrgDao {
    var persons: Table<Person>
    var units: Table<Unit>
    var names: Names
    var nextNameId: Id
    var dependents: Dependents

    function State(): Db
      reads this
    {
      Db(persons, units, names, nextNameId, dependents)
    }

    constructor ()
      ensures State() == EMPTY && Invariant(State())
    {
      persons, units, dependents := EMPTY.persons, EMPTY.units, EMPTY.dependents;
      names, nextNameId := map[], 1;
    }

    /** Inserts a unit and returns its key, or nothing when a constraint refuses the row. */
    method Insert(fields: UnitFields, user: string) returns (id: Option<Id>)
      requires Invariant(State())
      modifies this`units
      ensures Invariant(State()) && State() == Step(old(State()), InsertUnit(fields), user)
      ensures id ==
        if UnitAccepted(fields, old(units.rows.Keys) + {old(units.nextId)}) then Some(old(units.nextId)) else None
      ensures if id.Some? then RowInserted(old(units), units, user) && UnitColumns(units.rows[id.value], fields)
        else RowRefused(old(units), units)
    {
      StepKeepsInvariant(State(), InsertUnit(fields), user);
      InsertUnitEffect(State(), fields, user);
      var key := units.nextId;
      if !UnitAllowed(fields, units.rows.Keys + {key}) {
        units := FailInsert(units);
        return None;
      }
      var row := RowOf(fields, SearchVector("", "", ""));
      units := InsertRow(units, WithVector(names, key, row), user);
      return Some(key);
    }

    method InsertLocalized(unit: Id, locale: LocaleId, name: string, user: string) returns (id: Option<Id>)
      requires Invariant(State())
      modifies this`units, this`names, this`nextNameId
      ensures Invariant(State())
      ensures State() == Step(old(State()), Operation.InsertLocalized(unit, locale, name), user)
      ensures id == if unit in old(units.rows) && locale in LOCALES && (unit, locale) !in old(names)
        then Some(old(nextNameId)) else None
      ensures nextNameId == old(nextNameId) + 1 && (id.None? ==> names == old(names) && units == old(units))
      ensures id.Some? ==> names == old(names)[(unit, locale) := Localized(id.value, name)]
      ensures id.Some? ==> RowUpdated(old(units), units, unit, user) && var u := old(units).rows[unit];
        units.rows[unit] == if LOCALES[locale].isDefault then u.(vector := u.vector.(name := name)) else u
    {
      StepKeepsInvariant(State(), Operation.InsertLocalized(unit, locale, name), user);
      InsertLocalizedEffect(State(), unit, locale, name, user);
      var key := nextNameId;
      nextNameId := nextNameId + 1;
      if unit !in units.rows || locale !in LOCALES || (unit, locale) in names {
        return None;
      }
      names := names[(unit, locale) := Localized(key, name)];
      units := RefreshSearch(units, names, unit, user);
      return Some(key);
    }

    /** Updates a unit; whether a row was updated, or nothing when a constraint refuses the row. */
    method Update(id: Id, fields: UnitFields, user: string) returns (updated: Option<bool>)
      requires Invariant(State())
      modifies this`units
      ensures Invariant(State()) && State() == Step(old(State()), UpdateUnit(id, fields), user)
      ensures updated == if id !in old(units.rows) then Some(false)
        else if UnitAccepted(fields, old(units.rows.Keys)) then Some(true) else None
      ensures if updated == Some(true)
        then RowUpdated(old(units), units, id, user) && UnitColumns(units.rows[id], fields)
        else units == old(units)
    {
      StepKeepsInvariant(State(), UpdateUnit(id, fields), user);
      UpdateUnitEffect(State(), id, fields, user);
      if id !in units.rows {
        return Some(false);
      }
      if !UnitAllowed(fields, units.rows.Keys) {
        return None;
      }
      var row := RowOf(fields, units.rows[id].vector);
      units := UpdateRow(units, id, WithVector(names, id, row), user);
      return Some(true);
    }

    /** Deletes a unit. The foreign keys set its children's parents to null and delete its names and
        all that belongs to it, row by row in whatever order they are met. */
    method Remove(id: Id, user: string) returns (deleted: bool, ghost children: seq<Id>, ghost moves: seq<Move>)
      requires Invariant(State())
      modifies this`units, this`names, this`dependents
      ensures Enabled(old(State()), RemoveUnit(id, children, moves), user)
      ensures Invariant(State()) && State() == Step(old(State()), RemoveUnit(id, children, moves), user)
      ensures deleted <==> id in old(units.rows)
      ensures if deleted then UnitGone(old(State()), State(), id) else State() == old(State())
    {
      children, moves := [], [];
      deleted := id in units.rows;
      if !deleted {
        return;
      }
      ghost var before := State();
      children := DetachChildren(id, user);
      units := DeleteRow(units, id, user);
      names := NamesWithout(names, id);
      dependents, moves := Follow(Work(dependents, UnitActions(id)), user);
      assert State() == Step(before, RemoveUnit(id, children, moves), user);
      StepKeepsInvariant(before, RemoveUnit(id, children, moves), user);
      RemoveUnitByColumn(before, id, children, moves, user);
    }

    /** ON DELETE SET NULL of the parent column; the deleted unit itself is no longer there. */
    method DetachChildren(id: Id, user: string) returns (ghost order: seq<Id>)
      modifies this`units
      ensures Enumerates(order, ChildrenOf(old(units.rows) - {id}, id))
      ensures units == UpdateRows(old(units), order, WithoutParent, user)
    {
      order := [];
      var todo := ChildrenOf(units.rows - {id}, id);
      while todo != {}
        invariant Distinct(order) && (forall c <- order :: c in old(units.rows))
        invariant (set c <- order) !! todo && (set c <- order) + todo == ChildrenOf(old(units.rows) - {id}, id)
        invariant units == UpdateRows(old(units), order, WithoutParent, user)
      {
        ghost var some := SomeElement(todo);
        var c :| c in todo;
        assert (order + [c])[..|order|] == order;
        units := UpdateRow(units, c, WithoutParent(units.rows[c]), user);
        order := order + [c];
        todo := todo - {c};
      }
    }
  }
}
