/** The session pool of `contact/data/db_connection.hpp` with several sessions open at once, and the
    user name that `fn_audit_log` reads from the connection it runs on. */
module Sessions {
  import opened Wrappers

  // ---------- SQL string literals ----------

  function Doubled(s: string): string {
    if s == "" then ""
    else Doubled(s[..|s| - 1]) + if s[|s| - 1] == '\'' then "''" else [s[|s| - 1]]
  }

  function Quoted(s: string): string {
    "'" + Doubled(s) + "'"
  }

  method QuoteLiteral(s: string) returns (result: string)
    ensures result == Quoted(s)
    ensures forall rest :: rest == "" || rest[0] != '\'' ==> LiteralValue(result + rest) == Some((s, rest))
  {
    result := "'";
    for i := 0 to |s|
      invariant result == "'" + Doubled(s[..i])
    {
      assert s[..i + 1][..i] == s[..i];
      if s[i] == '\'' {
        result := result + "''";
      } else {
        result := result + [s[i]];
      }
    }
    assert s[..|s|] == s;
    result := result + "'";
    forall rest | rest == "" || rest[0] != '\'' ensures LiteralValue(result + rest) == Some((s, rest)) {
      QuotedRoundTrip(s, rest);
    }
  }

  /** How the server reads a literal: its value and the text after it. Within the quotes a pair of
      quotes stands for one. */
  function LiteralValue(text: string): Option<(string, string)> {
    if text == "" || text[0] != '\'' then None else LiteralBody(text[1..])
  }

  function LiteralBody(text: string): Option<(string, string)> {
    if text == "" then None
    else if text[0] != '\'' then Prefixed(text[0], LiteralBody(text[1..]))
    else if |text| > 1 && text[1] == '\'' then Prefixed('\'', LiteralBody(text[2..]))
    else Some(("", text[1..]))
  }

  function Prefixed(c: char, r: Option<(string, string)>): Option<(string, string)> {
    if r.None? then None else Some(([c] + r.value.0, r.value.1))
  }

  lemma {:induction false} DoubledFront(c: char, s: string)
    ensures Doubled([c] + s) == (if c == '\'' then "''" else [c]) + Doubled(s)
  {
    if s == "" {
      assert [c] + s == [c] && [c][..0] == "";
    } else {
      assert ([c] + s)[..|s|] == [c] + s[..|s| - 1];
      DoubledFront(c, s[..|s| - 1]);
    }
  }

  lemma {:induction false} DoubledBody(s: string, rest: string)
    requires rest == "" || rest[0] != '\''
    ensures LiteralBody(Doubled(s) + ("'" + rest)) == Some((s, rest))
  {
    if s == "" {
      assert Doubled(s) + ("'" + rest) == "'" + rest;
      assert ("'" + rest)[1..] == rest;
    } else {
      var c, s' := s[0], s[1..];
      assert s == [c] + s';
      DoubledFront(c, s');
      DoubledBody(s', rest);
      var text := Doubled(s) + ("'" + rest);
      var tail := Doubled(s') + ("'" + rest);
      if c == '\'' {
        assert text == "''" + tail && text[2..] == tail;
      } else {
        assert text == [c] + tail && text[1..] == tail;
      }
    }
  }

  /** A quoted name is read back as the name, whatever it contains, and ends where it should. */
  lemma QuotedRoundTrip(s: string, rest: string)
    requires rest == "" || rest[0] != '\''
    ensures LiteralValue(Quoted(s) + rest) == Some((s, rest))
  {
    assert (Quoted(s) + rest)[1..] == Doubled(s) + ("'" + rest);
    DoubledBody(s, rest);
  }

  // ---------- Connections and sessions ----------

  /** The two session variables of a connection, `None` when unset. */
  datatype Connection = Connection(currentUser: Option<string>, locale: Option<string>)

  const UNSET := Connection(None, None)

  /** Where a scoped session is between leasing its connection and giving it back. */
  datatype Phase = Leased | UserSet | Ready | UserReset | LocaleReset

  type SessionId = nat

  datatype Session = Session(username: string, locale: string, pos: nat, phase: Phase)

  /** One audit row: the session that wrote it, the name that session was opened with, and the name
      the trigger put into the row. */
  datatype Record = Record(session: SessionId, username: string, actionBy: string)

  datatype System = System(
    connections: seq<Connection>,
    holders: seq<Option<SessionId>>,
    sessions: map<SessionId, Session>,
    audit: seq<Record>)

  datatype Event =
    | Lease(id: SessionId, username: string, locale: string, pos: nat)
    | SetUser(id: SessionId)
    | SetLocale(id: SessionId)
    | Write(id: SessionId)
    | ResetUser(id: SessionId)
    | ResetLocale(id: SessionId)
    | GiveBack(id: SessionId)

  function Start(size: nat): System {
    System(seq(size, _ => UNSET), seq(size, _ => None), map[], [])
  }

  /** The audit user: the session variable, or the login user when it is null or empty. */
  function AuditUser(variable: Option<string>, login: string): string {
    if variable.None? || variable.value == "" then login else variable.value
  }

  /** The value a variable has after SET with the quoted text; no statement is sent for "". */
  function AfterSet(before: Option<string>, text: string): Option<string> {
    if text == "" then before
    else match LiteralValue(Quoted(text)) case None => before case Some(v) => Some(v.0)
  }

  function PhaseBefore(e: Event): Phase
    requires !e.Lease?
  {
    match e
    case SetUser(_) => Leased
    case SetLocale(_) => UserSet
    case Write(_) => Ready
    case ResetUser(_) => Ready
    case ResetLocale(_) => UserReset
    case GiveBack(_) => LocaleReset
  }

  /** When the event may happen. A lease waits until its connection is free. */
  predicate Enabled(s: System, e: Event) {
    if e.Lease? then
      e.id !in s.sessions && e.pos < |s.holders| && s.holders[e.pos].None?
    else
      e.id in s.sessions && s.sessions[e.id].phase == PhaseBefore(e)
  }

  ghost predicate WellFormed(s: System) {
    |s.connections| == |s.holders| && forall id <- s.sessions :: s.sessions[id].pos < |s.holders|
  }

  function Apply(s: System, e: Event, login: string): System
    requires WellFormed(s) && Enabled(s, e)
  {
    match e
    case Lease(id, username, locale, pos) =>
      s.(holders := s.holders[pos := Some(id)],
         sessions := s.sessions[id := Session(username, locale, pos, Leased)])
    case SetUser(id) =>
      var x := s.sessions[id];
      var c := s.connections[x.pos];
      s.(connections := s.connections[x.pos := c.(currentUser := AfterSet(c.currentUser, x.username))],
         sessions := s.sessions[id := x.(phase := UserSet)])
    case SetLocale(id) =>
      var x := s.sessions[id];
      var c := s.connections[x.pos];
      s.(connections := s.connections[x.pos := c.(locale := AfterSet(c.locale, x.locale))],
         sessions := s.sessions[id := x.(phase := Ready)])
    case Write(id) =>
      var x := s.sessions[id];
      s.(audit := s.audit + [Record(id, x.username, AuditUser(s.connections[x.pos].currentUser, login))])
    case ResetUser(id) =>
      var x := s.sessions[id];
      s.(connections := s.connections[x.pos := s.connections[x.pos].(currentUser := None)],
         sessions := s.sessions[id := x.(phase := UserReset)])
    case ResetLocale(id) =>
      var x := s.sessions[id];
      s.(connections := s.connections[x.pos := s.connections[x.pos].(locale := None)],
         sessions := s.sessions[id := x.(phase := LocaleReset)])
    case GiveBack(id) =>
      s.(holders := s.holders[s.sessions[id].pos := None],
         sessions := s.sessions - {id})
  }

  // ---------- What every interleaving keeps ----------

  function Wanted(text: string): Option<string> {
    if text == "" then None else Some(text)
  }

  /** What the variables of a session's connection are in each phase. */
  function Expected(x: Session): Connection {
    match x.phase
    case Leased => UNSET
    case UserSet => Connection(Wanted(x.username), None)
    case Ready => Connection(Wanted(x.username), Wanted(x.locale))
    case UserReset => Connection(None, Wanted(x.locale))
    case LocaleReset => UNSET
  }

  /** Sessions and held connections correspond one to one: a connection has at most one holder. */
  ghost predicate Exclusive(s: System)
    requires WellFormed(s)
  {
    && (forall id <- s.sessions :: s.holders[s.sessions[id].pos] == Some(id))
    && (forall pos :: 0 <= pos < |s.holders| && s.holders[pos].Some? ==>
      s.holders[pos].value in s.sessions && s.sessions[s.holders[pos].value].pos == pos)
  }

  ghost predicate IdleUnset(s: System)
    requires WellFormed(s)
  {
    forall pos :: 0 <= pos < |s.holders| && s.holders[pos].None? ==> s.connections[pos] == UNSET
  }

  ghost predicate NamesWriters(s: System, login: string) {
    forall k :: 0 <= k < |s.audit| ==>
      s.audit[k].actionBy == if s.audit[k].username == "" then login else s.audit[k].username
  }

  ghost predicate Invariant(s: System, login: string) {
    && WellFormed(s) && Exclusive(s) && IdleUnset(s) && NamesWriters(s, login)
    && forall id <- s.sessions :: s.connections[s.sessions[id].pos] == Expected(s.sessions[id])
  }

  lemma AfterSetIsWanted(text: string)
    ensures AfterSet(None, text) == Wanted(text)
  {
    QuotedRoundTrip(text, "");
    assert Quoted(text) + "" == Quoted(text);
  }

  /** A session moves to another phase and its connection to what that phase expects. */
  lemma PhaseChangeKeeps(s: System, id: SessionId, phase: Phase, login: string)
    requires Invariant(s, login) && id in s.sessions
    ensures var x := s.sessions[id].(phase := phase);
      Invariant(s.(connections := s.connections[x.pos := Expected(x)], sessions := s.sessions[id := x]), login)
  {
  }

  lemma LeaseKeeps(s: System, id: SessionId, username: string, locale: string, pos: nat, login: string)
    requires Invariant(s, login) && Enabled(s, Lease(id, username, locale, pos))
    ensures Invariant(Apply(s, Lease(id, username, locale, pos), login), login)
  {
  }

  lemma GiveBackKeeps(s: System, id: SessionId, login: string)
    requires Invariant(s, login) && Enabled(s, GiveBack(id))
    ensures Invariant(Apply(s, GiveBack(id), login), login)
  {
  }

  lemma WriteKeeps(s: System, id: SessionId, login: string)
    requires Invariant(s, login) && Enabled(s, Write(id))
    ensures Invariant(Apply(s, Write(id), login), login)
  {
    var s' := Apply(s, Write(id), login);
    assert s'.audit[..|s.audit|] == s.audit;
  }

  lemma SetKeeps(s: System, id: SessionId, login: string)
    requires Invariant(s, login) && id in s.sessions
    ensures Enabled(s, SetUser(id)) ==> Invariant(Apply(s, SetUser(id), login), login)
    ensures Enabled(s, SetLocale(id)) ==> Invariant(Apply(s, SetLocale(id), login), login)
  {
    AfterSetIsWanted(s.sessions[id].username);
    AfterSetIsWanted(s.sessions[id].locale);
    PhaseChangeKeeps(s, id, UserSet, login);
    PhaseChangeKeeps(s, id, Ready, login);
  }

  lemma ResetKeeps(s: System, id: SessionId, login: string)
    requires Invariant(s, login) && id in s.sessions
    ensures Enabled(s, ResetUser(id)) ==> Invariant(Apply(s, ResetUser(id), login), login)
    ensures Enabled(s, ResetLocale(id)) ==> Invariant(Apply(s, ResetLocale(id), login), login)
  {
    PhaseChangeKeeps(s, id, UserReset, login);
    PhaseChangeKeeps(s, id, LocaleReset, login);
  }

  lemma EventKeepsInvariant(s: System, e: Event, login: string)
    requires Invariant(s, login) && Enabled(s, e)
    ensures Invariant(Apply(s, e, login), login)
  {
    match e
    case Lease(id, username, locale, pos) => LeaseKeeps(s, id, username, locale, pos, login);
    case SetUser(id) => SetKeeps(s, id, login);
    case SetLocale(id) => SetKeeps(s, id, login);
    case Write(id) => WriteKeeps(s, id, login);
    case ResetUser(id) => ResetKeeps(s, id, login);
    case ResetLocale(id) => ResetKeeps(s, id, login);
    case GiveBack(id) => GiveBackKeeps(s, id, login);
  }

  ghost predicate Reaches(s: System, events: seq<Event>, login: string, s': System)
    decreases events
  {
    if events == [] then s' == s
    else WellFormed(s) && Enabled(s, events[0]) && Reaches(Apply(s, events[0], login), events[1..], login, s')
  }

  lemma {:induction false} RunsKeepInvariant(s: System, events: seq<Event>, login: string, s': System)
    requires Invariant(s, login) && Reaches(s, events, login, s')
    ensures Invariant(s', login)
    decreases events
  {
    if events != [] {
      EventKeepsInvariant(s, events[0], login);
      RunsKeepInvariant(Apply(s, events[0], login), events[1..], login, s');
    }
  }

  /** From a fresh pool, whatever sessions interleave: idle connections carry no variables, two
      sessions never share a connection, and every audit row names the user its session was opened
      for, or the login user when that name was empty. */
  lemma EveryInterleaving(size: nat, events: seq<Event>, login: string, s: System)
    requires Reaches(Start(size), events, login, s)
    ensures WellFormed(s) && IdleUnset(s) && NamesWriters(s, login)
    ensures forall id, id' :: id in s.sessions && id' in s.sessions && id != id' ==>
      s.sessions[id].pos != s.sessions[id'].pos
  {
    RunsKeepInvariant(Start(size), events, login, s);
  }
}
