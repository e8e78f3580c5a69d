/** DAO calls made over pooled sessions: the connections of Sessions and the tables of ContactDb in
    one state machine, so that what a session sets is what the audit trigger reads. A session event
    moves the connections and leaves the tables alone; a DAO call is a write of its session and a step
    of the database under the user the trigger then sees. Both invariants are kept together, and the
    calls of any interleaving form a run of the database. */
module AuditedSessions {
  import opened Sequences
  import D = ContactDb
  import I = ContactInvariants
  import S = Sessions

  datatype State = State(system: S.System, db: D.Db)

  /** A step of a session other than a statement, or one DAO call over it. */
  datatype Event = OfSession(event: S.Event) | Call(id: S.SessionId, op: D.Operation)

  /** The user the audit trigger sees on a session's connection. */
  function SeenUser(s: S.System, id: S.SessionId, login: string): string
    requires S.WellFormed(s) && id in s.sessions
  {
    S.AuditUser(s.connections[s.sessions[id].pos].currentUser, login)
  }

  predicate Enabled(s: State, e: Event, login: string)
    requires S.WellFormed(s.system)
  {
    match e
    case OfSession(event) => !event.Write? && S.Enabled(s.system, event)
    case Call(id, op) => S.Enabled(s.system, S.Write(id)) && D.Enabled(s.db, op, SeenUser(s.system, id, login))
  }

  function Apply(s: State, e: Event, login: string): State
    requires S.WellFormed(s.system) && Enabled(s, e, login)
  {
    match e
    case OfSession(event) => s.(system := S.Apply(s.system, event, login))
    case Call(id, op) =>
      State(S.Apply(s.system, S.Write(id), login), D.Step(s.db, op, SeenUser(s.system, id, login)))
  }

  ghost predicate Invariant(s: State, login: string) {
    S.Invariant(s.system, login) && I.Invariant(s.db)
  }

  function Start(size: nat): State {
    State(S.Start(size), D.EMPTY)
  }

  ghost predicate Reaches(s: State, events: seq<Event>, login: string, s': State)
    decreases events
  {
    if events == [] then s' == s
    else
      && S.WellFormed(s.system) && Enabled(s, events[0], login)
      && Reaches(Apply(s, events[0], login), events[1..], login, s')
  }

  lemma EventKeepsInvariant(s: State, e: Event, login: string)
    requires Invariant(s, login) && Enabled(s, e, login)
    ensures Invariant(Apply(s, e, login), login)
  {
    match e
    case OfSession(event) => S.EventKeepsInvariant(s.system, event, login);
    case Call(id, op) =>
      S.EventKeepsInvariant(s.system, S.Write(id), login);
      I.StepKeepsInvariant(s.db, op, SeenUser(s.system, id, login));
  }

  lemma {:induction false} RunsKeepInvariant(s: State, events: seq<Event>, login: string, s': State)
    requires Invariant(s, login) && Reaches(s, events, login, s')
    ensures Invariant(s', login)
    decreases events
  {
    if events != [] {
      EventKeepsInvariant(s, events[0], login);
      RunsKeepInvariant(Apply(s, events[0], login), events[1..], login, s');
    }
  }

  lemma StartInvariant(size: nat, login: string)
    ensures Invariant(Start(size), login)
  {
    I.EmptyInvariant();
  }

  /** The name a session's work should be logged under. */
  function NameOf(username: string, login: string): string {
    if username == "" then login else username
  }

  lemma SeenUserIsName(s: S.System, id: S.SessionId, login: string)
    requires S.Invariant(s, login) && id in s.sessions && s.sessions[id].phase == S.Ready
    ensures SeenUser(s, id, login) == NameOf(s.sessions[id].username, login)
  {
  }

  lemma CallNamesItsSession(s: State, login: string, id: S.SessionId, op: D.Operation)
    requires Invariant(s, login) && Enabled(s, Call(id, op), login)
    ensures I.LogsAppendedBy(s.db, Apply(s, Call(id, op), login).db, NameOf(s.system.sessions[id].username, login))
  {
    SeenUserIsName(s.system, id, login);
    I.StepAppends(s.db, op, SeenUser(s.system, id, login));
  }

  /** Whatever sessions interleave, the logs rebuild the tables, and every entry a DAO call adds to
      any log, by cascades at any level too, names the user its session was opened for, or the
      login user when that name was empty. */
  lemma EveryCallNamesItsSession(
    size: nat, events: seq<Event>, login: string, s: State, id: S.SessionId, op: D.Operation)
    requires Reaches(Start(size), events, login, s) && S.WellFormed(s.system) && Enabled(s, Call(id, op), login)
    ensures I.Invariant(s.db)
    ensures I.LogsAppendedBy(s.db, Apply(s, Call(id, op), login).db, NameOf(s.system.sessions[id].username, login))
  {
    StartInvariant(size, login);
    RunsKeepInvariant(Start(size), events, login, s);
    CallNamesItsSession(s, login, id, op);
  }

  /** The calls were made under the names that the records of the writes hold. */
  ghost predicate MadeBy(calls: seq<I.Call>, records: seq<S.Record>) {
    |calls| == |records| && forall k :: 0 <= k < |calls| ==> calls[k].user == records[k].actionBy
  }

  lemma CallFirst(before: D.Db, call: I.Call, calls: seq<I.Call>, after: D.Db)
    requires D.Enabled(before, call.op, call.user) && I.Reaches(D.Step(before, call.op, call.user), calls, after)
    ensures I.Reaches(before, [call] + calls, after)
  {
    assert ([call] + calls)[1..] == calls;
  }

  lemma PrependCall(s: State, e: Event, login: string, calls: seq<I.Call>, records: seq<S.Record>, after: D.Db)
    returns (calls': seq<I.Call>, records': seq<S.Record>)
    requires S.WellFormed(s.system) && Enabled(s, e, login) && e.Call?
    requires I.Reaches(Apply(s, e, login).db, calls, after) && MadeBy(calls, records)
    ensures I.Reaches(s.db, calls', after) && MadeBy(calls', records')
    ensures s.system.audit + records' == Apply(s, e, login).system.audit + records
  {
    var call := I.Call(e.op, SeenUser(s.system, e.id, login));
    var record := S.Record(e.id, s.system.sessions[e.id].username, call.user);
    CallFirst(s.db, call, calls, after);
    ConcatAssociates(s.system.audit, [record], records);
    calls', records' := [call] + calls, [record] + records;
  }

  /** The calls of an interleaving in their order, each with the user under which it was made. */
  lemma {:induction false} CallsMade(s: State, events: seq<Event>, login: string, s': State)
    returns (calls: seq<I.Call>, records: seq<S.Record>)
    requires Invariant(s, login) && Reaches(s, events, login, s')
    ensures I.Reaches(s.db, calls, s'.db) && MadeBy(calls, records)
    ensures s'.system.audit == s.system.audit + records
    decreases events
  {
    if events == [] {
      calls, records := [], [];
    } else {
      var e := events[0];
      EventKeepsInvariant(s, e, login);
      calls, records := CallsMade(Apply(s, e, login), events[1..], login, s');
      if e.Call? {
        calls, records := PrependCall(s, e, login, calls, records, s'.db);
      }
    }
  }

  /** A DAO call is one statement and one step of the model, so the calls have an order; what is proved
      is under which names they were made. From an empty database, the k-th call was made under the
      name its session was opened with, or the login user when that was empty. */
  lemma CallsAreNamed(size: nat, events: seq<Event>, login: string, s: State) returns (calls: seq<I.Call>)
    requires Reaches(Start(size), events, login, s)
    ensures I.Reaches(D.EMPTY, calls, s.db) && |calls| == |s.system.audit|
    ensures forall k :: 0 <= k < |calls| ==> calls[k].user == NameOf(s.system.audit[k].username, login)
  {
    StartInvariant(size, login);
    RunsKeepInvariant(Start(size), events, login, s);
    var records;
    calls, records := CallsMade(Start(size), events, login, s);
    assert [] + records == records;
  }
}
