/** A table with a serial key and the audit trigger of `contact/db/contact_ddl.sql` on it. */
module AuditedTables {
  import opened Wrappers

  type Id = int

  datatype Action = C | U | D

  /** One row of the log table. The data columns hold the whole audited row, its key included. */
  datatype Entry<R> = Entry(action: Action, user: string, oldData: Option<(Id, R)>, newData: Option<(Id, R)>)

  /** What `fn_audit_log` sees of the statement that fired it. */
  datatype Event<R> = Insert(newRow: (Id, R)) | Update(oldRow: (Id, R), newRow: (Id, R)) | Delete(oldRow: (Id, R))

  function AuditEntry<R>(e: Event<R>, user: string): Entry<R> {
    match e
    case Insert(n) => Entry(C, user, None, Some(n))
    case Update(o, n) => Entry(U, user, Some(o), Some(n))
    case Delete(o) => Entry(D, user, Some(o), None)
  }

  /** The table, its log and the next value of its key sequence. */
  datatype Table<R> = Table(rows: map<Id, R>, log: seq<Entry<R>>, nextId: Id)

  // ---------- Row statements, each with its trigger ----------

  function InsertRow<R>(t: Table<R>, r: R, user: string): Table<R> {
    Table(t.rows[t.nextId := r], t.log + [AuditEntry(Insert((t.nextId, r)), user)], t.nextId + 1)
  }

  /** A statement that fails after its key was drawn: sequences are not rolled back. */
  function FailInsert<R>(t: Table<R>): Table<R> {
    t.(nextId := t.nextId + 1)
  }

  function UpdateRow<R>(t: Table<R>, id: Id, r: R, user: string): Table<R>
    requires id in t.rows
  {
    t.(rows := t.rows[id := r], log := t.log + [AuditEntry(Update((id, t.rows[id]), (id, r)), user)])
  }

  function DeleteRow<R>(t: Table<R>, id: Id, user: string): Table<R>
    requires id in t.rows
  {
    t.(rows := t.rows - {id}, log := t.log + [AuditEntry(Delete((id, t.rows[id])), user)])
  }

  // ---------- Replaying the log ----------

  /** The table after one more log entry, or `None` when the entry does not fit it: a created key
      that is already there, or old data that is not the row the earlier entries left. */
  function Apply<R(==)>(rows: map<Id, R>, e: Entry<R>): Option<map<Id, R>> {
    match (e.action, e.oldData, e.newData)
    case (C, None, Some(n)) =>
      if n.0 in rows then None else Some(rows[n.0 := n.1])
    case (U, Some(o), Some(n)) =>
      if o.0 == n.0 && o.0 in rows && rows[o.0] == o.1 then Some(rows[n.0 := n.1]) else None
    case (D, Some(o), None) =>
      if o.0 in rows && rows[o.0] == o.1 then Some(rows - {o.0}) else None
    case _ => None
  }

  function Replay<R(==)>(log: seq<Entry<R>>): Option<map<Id, R>> {
    if log == [] then Some(map[])
    else
      match Replay(log[..|log| - 1])
      case None => None
      case Some(rows) => Apply(rows, log[|log| - 1])
  }

  /** The log rebuilds the table, and no key to come has been used. */
  ghost predicate Faithful<R>(t: Table<R>) {
    && Replay(t.log) == Some(t.rows)
    && forall id <- t.rows :: id < t.nextId
  }

  lemma {:induction false} ReplayOneMore<R>(log: seq<Entry<R>>, e: Entry<R>)
    ensures Replay(log + [e]) == match Replay(log) case None => None case Some(rows) => Apply(rows, e)
  {
    assert (log + [e])[..|log|] == log;
  }

  lemma RowStatementsFaithful<R>(t: Table<R>, id: Id, r: R, user: string)
    requires Faithful(t)
    ensures Faithful(InsertRow(t, r, user)) && Faithful(FailInsert(t))
    ensures id in t.rows ==> Faithful(UpdateRow(t, id, r, user)) && Faithful(DeleteRow(t, id, user))
  {
    ReplayOneMore(t.log, AuditEntry(Insert((t.nextId, r)), user));
    if id in t.rows {
      ReplayOneMore(t.log, AuditEntry(Update((id, t.rows[id]), (id, r)), user));
      ReplayOneMore(t.log, AuditEntry(Delete((id, t.rows[id])), user));
    }
  }

  /** Every prefix of a faithful log replays too, so each entry fits the rows before it. */
  lemma {:induction false} EveryEntryFits<R>(t: Table<R>, k: nat)
    requires Faithful(t) && k < |t.log|
    ensures Replay(t.log[..k]).Some?
    ensures var rows := Replay(t.log[..k]).value;
      var e := t.log[k];
      e.oldData.Some? ==> e.oldData.value.0 in rows && rows[e.oldData.value.0] == e.oldData.value.1
  {
    PrefixReplays(t.log, k + 1);
    PrefixReplays(t.log, k);
    assert t.log[..k + 1][..k] == t.log[..k];
  }

  lemma {:induction false} PrefixReplays<R>(log: seq<Entry<R>>, k: nat)
    requires Replay(log).Some? && k <= |log|
    ensures Replay(log[..k]).Some?
  {
    if k < |log| {
      PrefixReplays(log[..|log| - 1], k);
      assert log[..|log| - 1][..k] == log[..k];
    } else {
      assert log[..k] == log;
    }
  }

  // ---------- Statements over several rows ----------

  /** Updates the listed rows one after the other. */
  function UpdateRows<R>(t: Table<R>, ids: seq<Id>, f: R -> R, user: string): (t': Table<R>)
    requires forall id <- ids :: id in t.rows
    ensures t'.rows.Keys == t.rows.Keys && t'.nextId == t.nextId
  {
    if ids == [] then t
    else
      var t' := UpdateRows(t, ids[..|ids| - 1], f, user);
      UpdateRow(t', ids[|ids| - 1], f(t'.rows[ids[|ids| - 1]]), user)
  }

  /** Deletes the listed rows one after the other. */
  function DeleteRows<R>(t: Table<R>, ids: seq<Id>, user: string): (t': Table<R>)
    requires Distinct(ids) && forall id <- ids :: id in t.rows
    ensures t'.rows == t.rows - (set id <- ids) && t'.nextId == t.nextId
  {
    if ids == [] then t
    else
      var front, last := ids[..|ids| - 1], ids[|ids| - 1];
      assert last !in front && ids == front + [last];
      DeleteRow(DeleteRows(t, front, user), last, user)
  }

  predicate Distinct(ids: seq<Id>) {
    forall i, j :: 0 <= i < j < |ids| ==> ids[i] != ids[j]
  }

  /** `ids` lists the elements of `s` in some order, each once. */
  predicate Enumerates(ids: seq<Id>, s: set<Id>) {
    Distinct(ids) && (forall id <- ids :: id in s) && (forall id <- s :: id in ids)
  }

  lemma {:induction false} UpdateRowsEffect<R>(t: Table<R>, ids: seq<Id>, f: R -> R, user: string)
    requires Distinct(ids) && forall id <- ids :: id in t.rows
    ensures UpdateRows(t, ids, f, user).rows == map id <- t.rows :: if id in ids then f(t.rows[id]) else t.rows[id]
    ensures Faithful(t) ==> Faithful(UpdateRows(t, ids, f, user))
  {
    if ids != [] {
      var front, last := ids[..|ids| - 1], ids[|ids| - 1];
      assert last !in front && ids == front + [last];
      UpdateRowsEffect(t, front, f, user);
      var t' := UpdateRows(t, front, f, user);
      if Faithful(t) {
        RowStatementsFaithful(t', last, f(t'.rows[last]), user);
      }
    }
  }

  lemma {:induction false} DeleteRowsFaithful<R>(t: Table<R>, ids: seq<Id>, user: string)
    requires Distinct(ids) && (forall id <- ids :: id in t.rows) && Faithful(t)
    ensures Faithful(DeleteRows(t, ids, user))
  {
    if ids != [] {
      var front, last := ids[..|ids| - 1], ids[|ids| - 1];
      assert last !in front && ids == front + [last];
      DeleteRowsFaithful(t, front, user);
      var t' := DeleteRows(t, front, user);
      RowStatementsFaithful(t', last, t'.rows[last], user);
    }
  }

  /** Deleting some rows and then others is deleting them all in this order. */
  lemma {:induction false} DeleteRowsConcat<R>(t: Table<R>, a: seq<Id>, b: seq<Id>, user: string)
    requires Distinct(a) && Distinct(b) && (forall id <- a :: id in t.rows)
    requires forall id <- b :: id in t.rows && id !in a
    ensures Distinct(a + b) && (forall id <- a + b :: id in t.rows)
    ensures forall id <- b :: id in DeleteRows(t, a, user).rows
    ensures DeleteRows(t, a + b, user) == DeleteRows(DeleteRows(t, a, user), b, user)
  {
    DistinctConcat(a, b);
    if b == [] {
      assert a + b == a;
    } else {
      var front, last := b[..|b| - 1], b[|b| - 1];
      assert b == front + [last];
      DeleteRowsConcat(t, a, front, user);
      assert (a + b)[..|a + b| - 1] == a + front && (a + b)[|a + b| - 1] == last;
    }
  }

  lemma DistinctConcat(a: seq<Id>, b: seq<Id>)
    requires Distinct(a) && Distinct(b) && forall id <- b :: id !in a
    ensures Distinct(a + b) && forall id :: id in a + b <==> id in a || id in b
  {
    forall i, j | 0 <= i < j < |a + b| ensures (a + b)[i] != (a + b)[j] {
      if i < |a| <= j {
        assert b[j - |a|] in b && a[i] in a;
      }
    }
  }

  // ---------- Who is named in the logs ----------

  /** The log only grew, and every new entry names the user. */
  ghost predicate AppendedBy<R>(t: Table<R>, t': Table<R>, user: string) {
    t.log <= t'.log && forall k :: |t.log| <= k < |t'.log| ==> t'.log[k].user == user
  }

  /** A statement over several rows logs each of them once, in its order, with the row as it was. */
  lemma {:induction false} UpdateRowsLog<R>(t: Table<R>, ids: seq<Id>, f: R -> R, user: string)
    requires Distinct(ids) && forall id <- ids :: id in t.rows
    ensures var log := UpdateRows(t, ids, f, user).log;
      && |log| == |t.log| + |ids| && log[..|t.log|] == t.log
      && forall k :: 0 <= k < |ids| ==>
        log[|t.log| + k] == Entry(U, user, Some((ids[k], t.rows[ids[k]])), Some((ids[k], f(t.rows[ids[k]]))))
  {
    if ids != [] {
      var front, last := ids[..|ids| - 1], ids[|ids| - 1];
      assert last !in front && ids == front + [last];
      UpdateRowsLog(t, front, f, user);
      UpdateRowsEffect(t, front, f, user);
    }
  }

  lemma {:induction false} DeleteRowsLog<R>(t: Table<R>, ids: seq<Id>, user: string)
    requires Distinct(ids) && forall id <- ids :: id in t.rows
    ensures var log := DeleteRows(t, ids, user).log;
      && |log| == |t.log| + |ids| && log[..|t.log|] == t.log
      && forall k :: 0 <= k < |ids| ==> log[|t.log| + k] == Entry(D, user, Some((ids[k], t.rows[ids[k]])), None)
  {
    if ids != [] {
      var front, last := ids[..|ids| - 1], ids[|ids| - 1];
      assert last !in front && ids == front + [last];
      DeleteRowsLog(t, front, user);
    }
  }

  lemma {:induction false} UpdateRowsAppend<R>(t: Table<R>, ids: seq<Id>, f: R -> R, user: string)
    requires forall id <- ids :: id in t.rows
    ensures AppendedBy(t, UpdateRows(t, ids, f, user), user)
  {
    if ids != [] {
      UpdateRowsAppend(t, ids[..|ids| - 1], f, user);
    }
  }

  lemma {:induction false} DeleteRowsAppend<R>(t: Table<R>, ids: seq<Id>, user: string)
    requires Distinct(ids) && forall id <- ids :: id in t.rows
    ensures AppendedBy(t, DeleteRows(t, ids, user), user)
  {
    if ids != [] {
      var front, last := ids[..|ids| - 1], ids[|ids| - 1];
      assert last !in front && ids == front + [last];
      DeleteRowsAppend(t, front, user);
    }
  }
}
