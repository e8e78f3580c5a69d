/** The recursive query `fn_org_hierarchy` of `contact/db/contact_ddl.sql`. Nothing in the schema
    forbids units that are their own ancestors, so its termination is a theorem. */
module OrgHierarchy {
  import opened Wrappers
  import opened Sequences
  import opened AuditedTables
  import opened ContactDb

  type Units = map<Id, Unit>

  datatype Row = Row(
    id: Id,
    parent: Option<Id>,
    name: string,
    orgType: string,
    keywords: Option<string>,
    depth: nat,
    path: seq<Id>)

  /** The units with a name in the locale of the given code: the two inner joins. */
  function NamesIn(names: Names, code: string): map<Id, string> {
    map k <- names | k.1 in LOCALES && LOCALES[k.1].code == code :: k.0 := names[k].name
  }

  // ---------- The two branches of the recursive union ----------

  /** The rows of the roots, in the order the table is scanned. */
  function Anchor(units: Units, named: map<Id, string>, scan: seq<Id>): seq<Row>
    requires forall id <- scan :: id in units
  {
    if scan == [] then []
    else
      var id := scan[|scan| - 1];
      Anchor(units, named, scan[..|scan| - 1]) +
      if id in named && units[id].parent.None? then [RowOf(units, named, [id])] else []
  }

  /** One round: every named unit joined with the previous round's rows of its parent. */
  function Round(units: Units, named: map<Id, string>, scan: seq<Id>, work: seq<Row>): seq<Row>
    requires forall id <- scan :: id in units
  {
    if scan == [] then []
    else
      var id := scan[|scan| - 1];
      Round(units, named, scan[..|scan| - 1], work) + if id in named then Join(units, named, id, work) else []
  }

  function Join(units: Units, named: map<Id, string>, id: Id, work: seq<Row>): seq<Row>
    requires id in units && id in named
  {
    if work == [] then []
    else
      var t := work[|work| - 1];
      Join(units, named, id, work[..|work| - 1]) +
      if units[id].parent == Some(t.id) then
        [Row(id, units[id].parent, named[id], units[id].orgType, units[id].keywords, t.depth + 1, t.path + [id])]
      else []
  }

  // ---------- What the query should list ----------

  /** `path` leads from a root down to its last unit, and every unit on it is named. */
  predicate Chain(units: Units, named: map<Id, string>, path: seq<Id>) {
    && path != []
    && (forall k :: 0 <= k < |path| ==> path[k] in units && path[k] in named)
    && units[path[0]].parent.None?
    && (forall k :: 1 <= k < |path| ==> units[path[k]].parent == Some(path[k - 1]))
  }

  function RowOf(units: Units, named: map<Id, string>, path: seq<Id>): Row
    requires path != [] && path[|path| - 1] in units && path[|path| - 1] in named
  {
    var id := path[|path| - 1];
    Row(id, units[id].parent, named[id], units[id].orgType, units[id].keywords, |path|, path)
  }

  lemma RootsAreSingle(units: Units, named: map<Id, string>, p: seq<Id>)
    requires Chain(units, named, p)
    ensures units[p[|p| - 1]].parent.None? <==> |p| == 1
  {
    if |p| > 1 {
      ChainFront(units, named, p);
    }
  }

  lemma {:induction false} ChainIsUnique(units: Units, named: map<Id, string>, p: seq<Id>, q: seq<Id>)
    requires Chain(units, named, p) && Chain(units, named, q) && p[|p| - 1] == q[|q| - 1]
    ensures p == q
  {
    if |p| == 1 || |q| == 1 {
      RootsAreSingle(units, named, p);
      RootsAreSingle(units, named, q);
      assert p == [p[0]] && q == [q[0]];
    } else {
      ChainFront(units, named, p);
      ChainFront(units, named, q);
      ChainIsUnique(units, named, p[..|p| - 1], q[..|q| - 1]);
      assert p == p[..|p| - 1] + [p[|p| - 1]] && q == q[..|q| - 1] + [q[|q| - 1]];
    }
  }

  lemma ChainFront(units: Units, named: map<Id, string>, p: seq<Id>)
    requires Chain(units, named, p) && |p| > 1
    ensures Chain(units, named, p[..|p| - 1])
    ensures units[p[|p| - 1]].parent == Some(p[|p| - 2])
  {
  }

  lemma ChainPrefix(units: Units, named: map<Id, string>, p: seq<Id>, k: nat)
    requires Chain(units, named, p) && 0 < k <= |p|
    ensures Chain(units, named, p[..k])
  {
  }

  /** Even with parent cycles in the table a chain repeats no unit. */
  lemma ChainIsDistinct(units: Units, named: map<Id, string>, p: seq<Id>)
    requires Chain(units, named, p)
    ensures Distinct(p) && |p| <= |units|
  {
    forall i, j | 0 <= i < j < |p| ensures p[i] != p[j] {
      ChainPrefix(units, named, p, i + 1);
      ChainPrefix(units, named, p, j + 1);
      if p[i] == p[j] {
        ChainIsUnique(units, named, p[..i + 1], p[..j + 1]);
      }
    }
    DistinctFits(p, units.Keys);
  }

  lemma {:induction false} DistinctFits(p: seq<Id>, s: set<Id>)
    requires Distinct(p) && forall k :: 0 <= k < |p| ==> p[k] in s
    ensures |p| <= |s|
  {
    if p != [] {
      var front, last := p[..|p| - 1], p[|p| - 1];
      DistinctFits(front, s - {last});
    }
  }

  // ---------- Rounds and levels ----------

  /** `rows` lists exactly the chains of length `depth`, each unit at most once. */
  ghost predicate Level(units: Units, named: map<Id, string>, rows: seq<Row>, depth: nat) {
    && (forall r <- rows :: IsRow(units, named, r) && r.depth == depth)
    && (forall p :: Chain(units, named, p) && |p| == depth ==> RowOf(units, named, p) in rows)
    && OnePerUnit(rows)
  }

  ghost predicate IsRow(units: Units, named: map<Id, string>, r: Row) {
    Chain(units, named, r.path) && r == RowOf(units, named, r.path)
  }

  ghost predicate OnePerUnit(rows: seq<Row>) {
    forall i, j :: 0 <= i < j < |rows| ==> rows[i].id != rows[j].id
  }

  lemma {:induction false} AnchorRows(units: Units, named: map<Id, string>, scan: seq<Id>)
    requires Distinct(scan) && forall id <- scan :: id in units
    ensures var rows := Anchor(units, named, scan);
      && (forall r <- rows :: r.id in scan && IsRow(units, named, r) && r.depth == 1)
      && (forall id <- scan :: id in named && units[id].parent.None? ==> RowOf(units, named, [id]) in rows)
      && OnePerUnit(rows)
  {
    if scan == [] {
      assert Anchor(units, named, scan) == [];
    } else {
      var front, id := scan[..|scan| - 1], scan[|scan| - 1];
      AnchorRows(units, named, front);
      FrontAndLast(scan);
      if id in named && units[id].parent.None? {
        var row := RowOf(units, named, [id]);
        assert IsRow(units, named, row) && row.id == id;
        OneMoreRow(Anchor(units, named, front), row);
      } else {
        assert Anchor(units, named, scan) == Anchor(units, named, front);
      }
    }
  }

  lemma OneMoreRow(rows: seq<Row>, row: Row)
    requires OnePerUnit(rows) && forall r <- rows :: r.id != row.id
    ensures OnePerUnit(rows + [row]) && forall r :: r in rows + [row] <==> r in rows || r == row
  {
  }

  lemma AnchorLevel(units: Units, named: map<Id, string>, scan: seq<Id>)
    requires Enumerates(scan, units.Keys)
    ensures Level(units, named, Anchor(units, named, scan), 1)
  {
    AnchorRows(units, named, scan);
    forall p | Chain(units, named, p) && |p| == 1
      ensures RowOf(units, named, p) in Anchor(units, named, scan)
    {
      assert p == [p[0]];
    }
  }

  /** What the join of one unit adds: at most one row, below the row of its parent. */
  lemma {:induction false} JoinRows(units: Units, named: map<Id, string>, id: Id, work: seq<Row>, depth: nat)
    requires id in units && id in named && OnePerUnit(work)
    requires forall r <- work :: IsRow(units, named, r) && r.depth == depth
    ensures var rows := Join(units, named, id, work);
      && |rows| <= 1
      && (forall r <- rows :: r.id == id && IsRow(units, named, r) && r.depth == depth + 1)
      && (forall t <- work :: units[id].parent == Some(t.id) ==> RowOf(units, named, t.path + [id]) in rows)
      && (rows != [] ==> exists t <- work :: units[id].parent == Some(t.id))
  {
    if work != [] {
      JoinRows(units, named, id, work[..|work| - 1], depth);
    }
  }

  lemma {:induction false} RoundRows(units: Units, named: map<Id, string>, scan: seq<Id>, work: seq<Row>, depth: nat)
    requires Distinct(scan) && (forall id <- scan :: id in units) && OnePerUnit(work)
    requires forall r <- work :: IsRow(units, named, r) && r.depth == depth
    ensures var rows := Round(units, named, scan, work);
      && (forall r <- rows :: r.id in scan && IsRow(units, named, r) && r.depth == depth + 1)
      && (forall id <- scan, t <- work :: id in named && units[id].parent == Some(t.id) ==>
        RowOf(units, named, t.path + [id]) in rows)
      && OnePerUnit(rows)
  {
    if scan != [] {
      var id := scan[|scan| - 1];
      RoundRows(units, named, scan[..|scan| - 1], work, depth);
      if id in named {
        JoinRows(units, named, id, work, depth);
      }
    }
  }

  lemma Listed(ids: seq<Id>, s: set<Id>, id: Id)
    requires Enumerates(ids, s) && id in s
    ensures id in ids
  {
  }

  lemma RoundLevel(units: Units, named: map<Id, string>, scan: seq<Id>, work: seq<Row>, depth: nat)
    requires Enumerates(scan, units.Keys) && Level(units, named, work, depth) && depth > 0
    ensures Level(units, named, Round(units, named, scan, work), depth + 1)
  {
    RoundRows(units, named, scan, work, depth);
    forall p | Chain(units, named, p) && |p| == depth + 1
      ensures RowOf(units, named, p) in Round(units, named, scan, work)
    {
      RoundReaches(units, named, scan, work, p);
    }
  }

  lemma RoundReaches(units: Units, named: map<Id, string>, scan: seq<Id>, work: seq<Row>, p: seq<Id>)
    requires Enumerates(scan, units.Keys) && Chain(units, named, p) && |p| > 1
    requires Level(units, named, work, |p| - 1)
    ensures RowOf(units, named, p) in Round(units, named, scan, work)
  {
    var front, id := p[..|p| - 1], p[|p| - 1];
    ChainFront(units, named, p);
    LevelLists(units, named, work, front);
    Listed(scan, units.Keys, id);
    RowBelow(units, named, scan, work, |front|, RowOf(units, named, front), id);
    FrontAndLast(p);
  }

  lemma LevelLists(units: Units, named: map<Id, string>, work: seq<Row>, p: seq<Id>)
    requires Chain(units, named, p) && Level(units, named, work, |p|)
    ensures RowOf(units, named, p) in work
  {
  }

  /** The row of a unit's parent brings a row of the unit. */
  lemma RowBelow(units: Units, named: map<Id, string>, scan: seq<Id>, work: seq<Row>, depth: nat, t: Row, id: Id)
    requires Enumerates(scan, units.Keys) && Level(units, named, work, depth)
    requires t in work && id in scan && id in named && units[id].parent == Some(t.id)
    ensures RowOf(units, named, t.path + [id]) in Round(units, named, scan, work)
  {
    RoundRows(units, named, scan, work, depth);
  }

  // ---------- The query ----------

  /** Evaluates the recursive query on any scan order of the unit table. It stops after at most as
      many rounds as there are units, whatever the parents, lists each unit at most once, and lists
      exactly the units whose whole chain of ancestors to a root is named in the locale. */
  method Hierarchy(units: Units, named: map<Id, string>, scan: seq<Id>) returns (result: seq<Row>, rounds: nat)
    requires Enumerates(scan, units.Keys)
    ensures rounds <= |units|
    ensures OnePerUnit(result)
    ensures forall r <- result :: IsRow(units, named, r) && Distinct(r.path) && r.depth == |r.path| <= rounds
    ensures forall p :: Chain(units, named, p) ==> RowOf(units, named, p) in result
  {
    result, rounds := [], 0;
    var work := Anchor(units, named, scan);
    AnchorLevel(units, named, scan);
    while work != []
      invariant Level(units, named, work, rounds + 1)
      invariant rounds <= |units|
      invariant OnePerUnit(result)
      invariant forall r <- result :: IsRow(units, named, r) && r.depth <= rounds
      invariant forall p :: Chain(units, named, p) && |p| <= rounds ==> RowOf(units, named, p) in result
      decreases |units| - rounds
    {
      ChainIsDistinct(units, named, work[0].path);
      LevelsAreDisjoint(units, named, result, work, rounds);
      RoundLevel(units, named, scan, work, rounds + 1);
      result := result + work;
      work := Round(units, named, scan, work);
      rounds := rounds + 1;
    }
    NoLongerChains(units, named, rounds);
    forall r <- result ensures Distinct(r.path) {
      ChainIsDistinct(units, named, r.path);
    }
  }

  /** The unit has the name in a locale of the code. */
  ghost predicate IsNamed(names: Names, code: string, id: Id, name: string) {
    exists l :: l in LOCALES && LOCALES[l].code == code && (id, l) in names && names[(id, l)].name == name
  }

  ghost predicate HasName(names: Names, code: string, id: Id) {
    exists l :: l in LOCALES && LOCALES[l].code == code && (id, l) in names
  }

  /** A way down from a unit without a parent on which every unit has a name in a locale of the code. */
  ghost predicate NamedPath(db: Db, code: string, path: seq<Id>) {
    && path != []
    && (forall k :: 0 <= k < |path| ==> path[k] in db.units.rows && HasName(db.names, code, path[k]))
    && db.units.rows[path[0]].parent == None
    && (forall k :: 1 <= k < |path| ==> db.units.rows[path[k]].parent == Some(path[k - 1]))
  }

  /** The columns of a row for the last unit of its path. */
  ghost predicate Shows(db: Db, code: string, r: Row) {
    && NamedPath(db, code, r.path) && r.id == r.path[|r.path| - 1] && r.depth == |r.path|
    && IsNamed(db.names, code, r.id, r.name)
    && var u := db.units.rows[r.id];
       r.parent == u.parent && r.orgType == u.orgType && r.keywords == u.keywords
  }

  lemma NamesInCode(names: Names, code: string, id: Id, name: string)
    ensures var named := NamesIn(names, code); id in named && named[id] == name <==> IsNamed(names, code, id, name)
  {
  }

  lemma NamedPathIsChain(db: Db, code: string, path: seq<Id>)
    ensures NamedPath(db, code, path) <==> Chain(db.units.rows, NamesIn(db.names, code), path)
  {
    var named := NamesIn(db.names, code);
    assert forall id :: id in named <==> HasName(db.names, code, id);
  }

  lemma ShownIsRow(db: Db, code: string, r: Row)
    ensures Shows(db, code, r) <==> IsRow(db.units.rows, NamesIn(db.names, code), r)
  {
    NamedPathIsChain(db, code, r.path);
    NamesInCode(db.names, code, r.id, r.name);
  }

  /** `fn_org_hierarchy`: lists exactly the rows of the units that every unit above them, up to one
      without a parent, and they themselves have a name for in a locale of the code. */
  method OrgHierarchy(db: Db, code: string, scan: seq<Id>) returns (result: seq<Row>)
    requires Enumerates(scan, db.units.rows.Keys)
    ensures OnePerUnit(result)
    ensures forall r <- result :: Shows(db, code, r) && Distinct(r.path) && r.depth <= |db.units.rows|
    ensures forall r :: Shows(db, code, r) ==> r in result
    ensures forall path :: NamedPath(db, code, path) ==> exists r :: r in result && r.path == path
  {
    var rounds;
    result, rounds := Hierarchy(db.units.rows, NamesIn(db.names, code), scan);
    forall r ensures Shows(db, code, r) <==> r in result {
      ShownIsRow(db, code, r);
    }
    forall path | NamedPath(db, code, path) ensures exists r :: r in result && r.path == path {
      NamedPathIsChain(db, code, path);
      assert RowOf(db.units.rows, NamesIn(db.names, code), path).path == path;
    }
  }

  lemma LevelsAreDisjoint(units: Units, named: map<Id, string>, result: seq<Row>, work: seq<Row>, depth: nat)
    requires forall r <- result :: IsRow(units, named, r) && r.depth <= depth
    requires forall r <- work :: IsRow(units, named, r) && r.depth == depth + 1
    requires OnePerUnit(result) && OnePerUnit(work)
    ensures OnePerUnit(result + work)
  {
    forall r <- result, w <- work ensures r.id != w.id {
      if r.id == w.id {
        ChainIsUnique(units, named, r.path, w.path);
      }
    }
  }

  lemma NoLongerChains(units: Units, named: map<Id, string>, rounds: nat)
    requires Level(units, named, [], rounds + 1)
    ensures forall p :: Chain(units, named, p) ==> |p| <= rounds
  {
    forall p | Chain(units, named, p) ensures |p| <= rounds {
      if |p| > rounds {
        ChainPrefix(units, named, p, rounds + 1);
      }
    }
  }

  // ---------- Parent cycles ----------

  /** The DAO can make a unit its own parent. */
  lemma SelfParentIsReachable(user: string)
    ensures var root := UnitFields(0, "Company", "", true, "");
      var db := Step(Step(EMPTY, InsertUnit(root), user), UpdateUnit(1, root.(parent := 1)), user);
      1 in db.units.rows && db.units.rows[1].parent == Some(1)
  {
  }

  /** Units on a cycle, and all below them, are never listed. */
  lemma {:induction false} CycleIsNotListed(units: Units, named: map<Id, string>, cycle: seq<Id>, p: seq<Id>)
    requires cycle != [] && Chain(units, named, p)
    requires forall k :: 0 <= k < |cycle| ==> cycle[k] in units
    requires forall k :: 0 <= k < |cycle| ==> units[cycle[k]].parent == Some(cycle[(k + 1) % |cycle|])
    ensures forall k :: 0 <= k < |cycle| ==> cycle[k] !in p
    decreases |p|
  {
    var last := p[|p| - 1];
    if |p| > 1 {
      ChainFront(units, named, p);
      CycleIsNotListed(units, named, cycle, p[..|p| - 1]);
    }
    forall k | 0 <= k < |cycle| ensures cycle[k] !in p {
      var next := (k + 1) % |cycle|;
      assert cycle[k] != last;
      assert p == p[..|p| - 1] + [last];
    }
  }
}
