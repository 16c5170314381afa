/** Stored plugin configuration and data: a row whose id is its version, replaced as a whole,
    written by clients that compare the version they read. */
module PluginStore {
  import opened Hashing
  import opened Wrappers

  const EMPTY: Json := Obj(map[])

  /** The row of one plugin, scope and owner. Ids come from a sequence and never come back. */
  datatype Server = Server(row: Option<Versioned>, nextId: nat)
  datatype Versioned = Versioned(id: nat, payload: Json)

  /** What a read answers: `{}` and no version while there is no row. */
  datatype Snapshot = Snapshot(payload: Json, version: Option<nat>)

  /** The `expected_version` of a write: absent, "null", an integer, or neither. */
  datatype Expected = Unchecked | NoRow | Version(id: int) | Malformed

  datatype Response = Ok | Conflict(current: Option<nat>) | Invalid

  function Get(s: Server): Snapshot {
    match s.row
    case None => Snapshot(EMPTY, None)
    case Some(r) => Snapshot(r.payload, Some(r.id))
  }

  predicate Accepts(s: Server, e: Expected) {
    match e
    case Unchecked => true
    case NoRow => s.row.None?
    case Version(id) => s.row.Some? && s.row.value.id == id
    case Malformed => false
  }

  /** The state after one write transaction: replaced, or untouched. */
  function Put(s: Server, payload: Json, valid: bool, e: Expected): Server {
    if valid && Accepts(s, e) then Server(Some(Versioned(s.nextId, payload)), s.nextId + 1) else s
  }

  function Reply(s: Server, valid: bool, e: Expected): Response {
    if !valid || e.Malformed? then Invalid
    else if Accepts(s, e) then Ok
    else Conflict(if s.row.Some? then Some(s.row.value.id) else None)
  }

  class PayloadTable {
    var row: Option<Versioned>
    var nextId: nat

    ghost function State(): Server
      reads this
    {
      Server(row, nextId)
    }

    constructor ()
      ensures State() == Server(None, 0)
    {
      row, nextId := None, 0;
    }

    method GetPayload() returns (payload: Json, version: Option<nat>)
      ensures Snapshot(payload, version) == Get(State())
    {
      if row.None? { return EMPTY, None; }
      return row.value.payload, Some(row.value.id);
    }

    method ExpectedVersionConflict(expected: Expected) returns (conflict: Option<Response>)
      ensures conflict == if Accepts(State(), expected) then None else Some(Reply(State(), true, expected))
      ensures conflict.Some? ==>
        conflict.value == if expected.Malformed? then Invalid
          else Conflict(if row.None? then None else Some(row.value.id))
    {
      var current := if row.Some? then Some(row.value.id) else None;
      match expected {
        case Unchecked => return None;
        case NoRow => return if current.Some? then Some(Conflict(current)) else None;
        case Malformed => return Some(Invalid);
        case Version(id) =>
          return if current.None? || current.value != id then Some(Conflict(current)) else None;
      }
    }

    /** `valid` is the verdict of the plugin's schema on the payload. */
    method PutPayload(payload: Json, valid: bool, expected: Expected) returns (r: Response)
      modifies this
      ensures State() == Put(old(State()), payload, valid, expected)
      ensures r == Reply(old(State()), valid, expected)
      ensures r.Conflict? ==> r.current == if old(row).None? then None else Some(old(row).value.id)
    {
      if !valid { return Invalid; }
      if !expected.Unchecked? {
        var conflict := ExpectedVersionConflict(expected);
        if conflict.Some? { return conflict.value; }
      }
      row := None;
      row := Some(Versioned(nextId, payload));
      nextId := nextId + 1;
      r := Ok;
    }
  }

  // ----- Interleaved clients -----

  /** How a client rebuilds a payload; its argument is None when it has read nothing. */
  type Build = Option<Json> -> Json

  /** One call of the retry helper: what it builds from, and whether it already retried. */
  datatype Call =
    | Sending(build: Build, basis: Option<Snapshot>, retried: bool)
    | Refetching(build: Build)

  datatype Client = Client(cache: Option<Snapshot>, call: Option<Call>)

  /** A successful write. It is blind when the client had read nothing. */
  datatype Commit = Commit(build: Build, blind: bool)

  datatype System = System(server: Server, clients: map<nat, Client>, log: seq<Commit>)

  datatype Event =
    | Join(client: nat)
    | Fetch(client: nat)
    | StartCall(client: nat, build: Build)
    | Send(client: nat, valid: bool)
    | Retry(client: nat)

  predicate Enabled(s: System, e: Event) {
    match e
    case Join(c) => c !in s.clients
    case Fetch(c) => c in s.clients
    case StartCall(c, _) => c in s.clients && s.clients[c].call.None?
    case Send(c, _) => c in s.clients && s.clients[c].call.Some? && s.clients[c].call.value.Sending?
    case Retry(c) =>
      c in s.clients && s.clients[c].call.Some? && s.clients[c].call.value.Refetching? && s.clients[c].cache.Some?
  }

  function ExpectedOf(basis: Option<Snapshot>): Expected {
    match basis
    case None => Unchecked
    case Some(snapshot) => if snapshot.version.None? then NoRow else Version(snapshot.version.value)
  }

  function PayloadOf(call: Call): Json
    requires call.Sending?
  {
    call.build(if call.basis.Some? then Some(call.basis.value.payload) else None)
  }

  /** After an answer the call ends, unless a first conflict sends it to fetch again. */
  function AfterReply(call: Call, reply: Response): Option<Call>
    requires call.Sending?
  {
    if reply.Conflict? && !call.retried && call.basis.Some? then Some(Refetching(call.build)) else None
  }

  function Next(s: System, e: Event): System
    requires Enabled(s, e)
  {
    match e
    case Join(c) => s.(clients := s.clients[c := Client(None, None)])
    case Fetch(c) => s.(clients := s.clients[c := s.clients[c].(cache := Some(Get(s.server)))])
    case StartCall(c, build) =>
      s.(clients := s.clients[c := s.clients[c].(call := Some(Sending(build, s.clients[c].cache, false)))])
    case Send(c, valid) =>
      var call := s.clients[c].call.value;
      var expected := ExpectedOf(call.basis);
      System(
        Put(s.server, PayloadOf(call), valid, expected),
        s.clients[c := s.clients[c].(call := AfterReply(call, Reply(s.server, valid, expected)))],
        if valid && Accepts(s.server, expected) then s.log + [Commit(call.build, call.basis.None?)] else s.log)
    case Retry(c) =>
      var build := s.clients[c].call.value.build;
      s.(clients := s.clients[c := s.clients[c].(call := Some(Sending(build, s.clients[c].cache, true)))])
  }

  // ----- No lost updates -----

  /** The payload a log of writes produces: a blind write starts over. */
  function Replay(log: seq<Commit>): Json {
    if log == [] then EMPTY
    else
      var last := log[|log| - 1];
      last.build(if last.blind then None else Some(Replay(log[..|log| - 1])))
  }

  /** Every build applied to the result of all the ones before it; the first to what it had read. */
  function Composed(log: seq<Commit>): Json {
    if log == [] then EMPTY
    else
      var last := log[|log| - 1];
      last.build(if |log| == 1 && last.blind then None else Some(Composed(log[..|log| - 1])))
  }

  /** Payloads by the id they were stored under. */
  ghost predicate Remembers(issued: map<nat, Json>, s: Server) {
    && (forall id :: id in issued ==> id < s.nextId)
    && (s.row.Some? ==> s.row.value.id in issued && issued[s.row.value.id] == s.row.value.payload)
  }

  ghost predicate Truthful(issued: map<nat, Json>, snapshot: Snapshot) {
    match snapshot.version
    case None => snapshot.payload == EMPTY
    case Some(id) => id in issued && issued[id] == snapshot.payload
  }

  ghost predicate ClientInv(issued: map<nat, Json>, c: Client) {
    && (c.cache.Some? ==> Truthful(issued, c.cache.value))
    && (c.call.Some? && c.call.value.Sending? && c.call.value.basis.Some? ==>
      Truthful(issued, c.call.value.basis.value))
  }

  ghost predicate Inv(issued: map<nat, Json>, s: System) {
    && Remembers(issued, s.server)
    && (forall c :: c in s.clients ==> ClientInv(issued, s.clients[c]))
    && (s.server.row.None? <==> s.log == [])
    && Get(s.server).payload == Replay(s.log)
  }

  function Issued(issued: map<nat, Json>, before: Server, after: Server): map<nat, Json> {
    if after.row.Some? then issued[after.row.value.id := after.row.value.payload] else issued
  }

  lemma SendKeepsInv(issued: map<nat, Json>, s: System, c: nat, valid: bool)
    requires Inv(issued, s) && Enabled(s, Send(c, valid))
    ensures Inv(Issued(issued, s.server, Next(s, Send(c, valid)).server), Next(s, Send(c, valid)))
  {
    var t, call := Next(s, Send(c, valid)), s.clients[c].call.value;
    assert ClientInv(issued, s.clients[c]);
    if t.server != s.server {
      assert t.log[..|t.log| - 1] == s.log;
      assert call.basis.Some? ==> call.basis.value.payload == Replay(s.log);
    }
    forall d | d in t.clients ensures ClientInv(Issued(issued, s.server, t.server), t.clients[d]) {
      assert ClientInv(issued, s.clients[d]);
    }
  }

  lemma StepKeepsInv(issued: map<nat, Json>, s: System, e: Event)
    requires Inv(issued, s) && Enabled(s, e)
    ensures Inv(Issued(issued, s.server, Next(s, e).server), Next(s, e))
  {
    match e
    case Send(c, valid) => SendKeepsInv(issued, s, c, valid);
    case _ =>
      var t := Next(s, e);
      forall d | d in t.clients ensures ClientInv(Issued(issued, s.server, t.server), t.clients[d]) {
        if d in s.clients { assert ClientInv(issued, s.clients[d]); }
      }
  }

  function Run(s: System, events: seq<Event>): Option<System>
    decreases |events|
  {
    if events == [] then Some(s)
    else if Enabled(s, events[0]) then Run(Next(s, events[0]), events[1..])
    else None
  }

  const START := System(Server(None, 0), map[], [])

  lemma {:induction false} RunKeepsInv(issued: map<nat, Json>, s: System, events: seq<Event>)
    returns (later: map<nat, Json>)
    requires Inv(issued, s) && Run(s, events).Some?
    ensures Inv(later, Run(s, events).value)
    decreases |events|
  {
    if events == [] {
      later := issued;
    } else {
      StepKeepsInv(issued, s, events[0]);
      later := RunKeepsInv(Issued(issued, s.server, Next(s, events[0]).server), Next(s, events[0]), events[1..]);
    }
  }

  /** Whatever the interleaving, the stored payload is what replaying the successful writes gives. */
  lemma PayloadIsReplay(events: seq<Event>)
    requires Run(START, events).Some?
    ensures
      var s := Run(START, events).value;
      Get(s.server).payload == Replay(s.log)
  {
    var _ := RunKeepsInv(map[], START, events);
  }

  lemma {:induction false} ReplayFromBlind(log: seq<Commit>, i: nat)
    requires i < |log| && log[i].blind
    ensures Replay(log) == Replay(log[i..])
    decreases |log|
  {
    var rest, tail := log[..|log| - 1], log[i..];
    if i < |rest| {
      ReplayFromBlind(rest, i);
      assert tail[..|tail| - 1] == rest[i..];
    }
  }

  /** A write by a client that has read nothing discards everything committed before it: the
      stored payload does not depend on any earlier build. */
  lemma BlindWriteForgets(events: seq<Event>, i: nat)
    requires Run(START, events).Some?
    requires i < |Run(START, events).value.log| && Run(START, events).value.log[i].blind
    ensures
      var s := Run(START, events).value;
      Get(s.server).payload == Replay(s.log[i..])
  {
    PayloadIsReplay(events);
    ReplayFromBlind(Run(START, events).value.log, i);
  }

  /** No write without a read comes after another write. */
  ghost predicate NoLateBlindWrite(log: seq<Commit>) {
    forall i :: 1 <= i < |log| ==> !log[i].blind
  }

  lemma {:induction false} ReplayWithoutBlindWrites(log: seq<Commit>)
    requires NoLateBlindWrite(log)
    ensures Replay(log) == Composed(log)
  {
    if log != [] { ReplayWithoutBlindWrites(log[..|log| - 1]); }
  }

  // ----- Which schedules lose no update -----

  ghost predicate SameStep(e: Event, o: Event) {
    if e.StartCall? then o.StartCall? && o.client == e.client else o == e
  }

  /** The same steps of the same clients, with any builds. */
  ghost predicate SameSchedule(events: seq<Event>, others: seq<Event>) {
    |events| == |others| && forall i :: 0 <= i < |events| ==> SameStep(events[i], others[i])
  }

  ghost predicate AlikeSnapshots(a: Option<Snapshot>, b: Option<Snapshot>) {
    a.Some? == b.Some? && (a.Some? ==> a.value.version == b.value.version)
  }

  ghost predicate AlikeClients(c: Client, d: Client) {
    && AlikeSnapshots(c.cache, d.cache)
    && c.call.Some? == d.call.Some?
    && (c.call.Some? ==>
      && c.call.value.Sending? == d.call.value.Sending?
      && (c.call.value.Sending? ==>
        AlikeSnapshots(c.call.value.basis, d.call.value.basis) && c.call.value.retried == d.call.value.retried))
  }

  /** States that differ in builds and payloads only. */
  ghost predicate Alike(s: System, t: System) {
    && s.server.nextId == t.server.nextId
    && s.server.row.Some? == t.server.row.Some?
    && (s.server.row.Some? ==> s.server.row.value.id == t.server.row.value.id)
    && s.clients.Keys == t.clients.Keys
    && (forall c :: c in s.clients ==> AlikeClients(s.clients[c], t.clients[c]))
    && |s.log| == |t.log|
    && (forall i :: 0 <= i < |s.log| ==> s.log[i].blind == t.log[i].blind)
  }

  lemma StepsStayAlike(s: System, t: System, e: Event, o: Event)
    requires Alike(s, t) && SameStep(e, o) && Enabled(s, e)
    ensures Enabled(t, o) && Alike(Next(s, e), Next(t, o))
  {
    if e.client in s.clients { assert AlikeClients(s.clients[e.client], t.clients[e.client]); }
  }

  lemma {:induction false} RunsStayAlike(s: System, t: System, events: seq<Event>, others: seq<Event>)
    requires Alike(s, t) && SameSchedule(events, others) && Run(s, events).Some?
    ensures Run(t, others).Some? && Alike(Run(s, events).value, Run(t, others).value)
    decreases |events|
  {
    hide Alike, SameStep, Next, Enabled;
    if events != [] {
      StepsStayAlike(s, t, events[0], others[0]);
      RunsStayAlike(Next(s, events[0]), Next(t, others[0]), events[1..], others[1..]);
    }
  }

  /** A build that shows how many builds it was applied to. */
  function Wrapping(): Build {
    (current: Option<Json>) => if current.Some? then Arr([current.value]) else EMPTY
  }

  ghost predicate AllWrap(s: System) {
    && (forall w :: w in s.log ==> w.build == Wrapping())
    && (forall c :: c in s.clients && s.clients[c].call.Some? ==> s.clients[c].call.value.build == Wrapping())
  }

  lemma {:induction false} RunKeepsWrapping(s: System, events: seq<Event>)
    requires AllWrap(s) && Run(s, events).Some?
    requires forall e :: e in events && e.StartCall? ==> e.build == Wrapping()
    ensures AllWrap(Run(s, events).value)
    decreases |events|
  {
    hide Wrapping;
    if events != [] {
      assert events[0] in events;
      var t := Next(s, events[0]);
      assert AllWrap(t);
      RunKeepsWrapping(t, events[1..]);
    }
  }

  function Layers(v: Json): nat {
    if v.Arr? && |v.items| == 1 then 1 + Layers(v.items[0]) else 0
  }

  lemma {:induction false} LateBlindWriteShows(log: seq<Commit>)
    requires forall w :: w in log ==> w.build == Wrapping()
    ensures Layers(Replay(log)) <= Layers(Composed(log))
    ensures !NoLateBlindWrite(log) ==> Layers(Replay(log)) < Layers(Composed(log))
  {
    if log != [] {
      var rest, last := log[..|log| - 1], log[|log| - 1];
      assert last in log && log == rest + [last];
      LateBlindWriteShows(rest);
      if !NoLateBlindWrite(log) && !last.blind {
        var i :| 1 <= i < |log| && log[i].blind;
        assert rest[i].blind;
      }
    }
  }

  function WrappingOf(events: seq<Event>): seq<Event> {
    seq(|events|, i requires 0 <= i < |events| =>
      if events[i].StartCall? then events[i].(build := Wrapping()) else events[i])
  }

  /** No lost updates, and exactly when: a schedule stores the builds of the successful writers
      applied one after another in commit order, whatever they build, if and only if no client
      that has read nothing writes after another write. */
  lemma NoLostUpdatesIff(events: seq<Event>)
    requires Run(START, events).Some?
    ensures
      (forall others :: SameSchedule(events, others) ==>
        && Run(START, others).Some?
        && Get(Run(START, others).value.server).payload == Composed(Run(START, others).value.log))
      <==> NoLateBlindWrite(Run(START, events).value.log)
  {
    if NoLateBlindWrite(Run(START, events).value.log) {
      forall others | SameSchedule(events, others)
        ensures Run(START, others).Some?
        ensures Get(Run(START, others).value.server).payload == Composed(Run(START, others).value.log)
      {
        RunsStayAlike(START, START, events, others);
        PayloadIsReplay(others);
        ReplayWithoutBlindWrites(Run(START, others).value.log);
      }
    } else {
      var others := WrappingOf(events);
      RunsStayAlike(START, START, events, others);
      RunKeepsWrapping(START, others);
      PayloadIsReplay(others);
      LateBlindWriteShows(Run(START, others).value.log);
      assert SameSchedule(events, others);
    }
  }

  /** Two clients add their key, one of them without having read: its write loses the other's. */
  lemma BlindWriteLosesUpdate()
    ensures
      var x: Build := current => Str("x");
      var y: Build := (current: Option<Json>) => if current.Some? then current.value else EMPTY;
      var begun := Next(Next(Next(START, Join(0)), Fetch(0)), StartCall(0, x));
      var s := Next(Next(Next(Next(begun, Join(1)), StartCall(1, y)), Send(0, true)), Send(1, true));
      Get(s.server).payload == EMPTY && Composed(s.log) == Str("x")
  {
    var x: Build := current => Str("x");
    var y: Build := (current: Option<Json>) => if current.Some? then current.value else EMPTY;
    var log := [Commit(x, false), Commit(y, true)];
    assert log[..1] == [Commit(x, false)] && [Commit(x, false)][..0] == [];
    assert Composed(log[..1]) == Str("x");
  }

  /** A retry built on what was just fetched succeeds when nobody wrote in between. */
  lemma UndisturbedRetrySucceeds(s: System, c: nat)
    requires c in s.clients && s.clients[c].call.Some? && s.clients[c].call.value.Refetching?
    ensures
      var t := Next(Next(Next(s, Fetch(c)), Retry(c)), Send(c, true));
      && t.log == s.log + [Commit(s.clients[c].call.value.build, false)]
      && t.clients[c].call.None?
      && Get(t.server).payload == s.clients[c].call.value.build(Some(Get(s.server).payload))
  {
  }

  ghost predicate UpToDate(s: Server, snapshot: Snapshot) {
    snapshot.version == if s.row.Some? then Some(s.row.value.id) else None
  }

  /** A first write on what had been read is committed if the version is still the current one;
      otherwise nothing is written, and the call is committed on its retry, built on what is stored
      by then. */
  lemma StaleCallRetries(s: System, c: nat)
    requires Enabled(s, Send(c, true)) && s.clients[c].call.value.basis.Some? && !s.clients[c].call.value.retried
    ensures
      var call, t := s.clients[c].call.value, Next(s, Send(c, true));
      if UpToDate(s.server, call.basis.value) then
        t.clients[c].call.None? && Get(t.server).payload == call.build(Some(call.basis.value.payload))
      else
        && t.server == s.server && t.log == s.log && Enabled(Next(t, Fetch(c)), Retry(c))
        && var u := Next(Next(Next(t, Fetch(c)), Retry(c)), Send(c, true));
          u.clients[c].call.None? && Get(u.server).payload == call.build(Some(Get(s.server).payload))
  {
    var t := Next(s, Send(c, true));
    if !UpToDate(s.server, s.clients[c].call.value.basis.value) { UndisturbedRetrySucceeds(t, c); }
  }

  /** A call sends at most twice: a conflict on the retry ends it with nothing written. */
  lemma SecondConflictEndsCall(s: System, c: nat, valid: bool)
    requires Enabled(s, Send(c, valid)) && s.clients[c].call.value.retried
    ensures
      var t := Next(s, Send(c, valid));
      && t.clients[c].call.None?
      && (Reply(s.server, valid, ExpectedOf(s.clients[c].call.value.basis)) != Ok ==>
        t.server == s.server && t.log == s.log)
  {
  }

  // ----- Server-side read and write in separate transactions -----

  /** States the row can pass through: the same row, or one with an id issued since. */
  ghost predicate Later(a: Server, b: Server) {
    && a.nextId <= b.nextId
    && (b.row == a.row || (b.row.Some? && b.row.value.id >= a.nextId))
  }

  ghost predicate IdsIssued(s: Server) {
    s.row.Some? ==> s.row.value.id < s.nextId
  }

  lemma {:induction false} RunIsLater(s: System, events: seq<Event>)
    requires IdsIssued(s.server) && Run(s, events).Some?
    ensures Later(s.server, Run(s, events).value.server) && IdsIssued(Run(s, events).value.server)
    decreases |events|
  {
    if events != [] {
      var t := Next(s, events[0]);
      assert Later(s.server, t.server) && IdsIssued(t.server);
      RunIsLater(t, events[1..]);
    }
  }

  /** Accepting, discarding and unpinning read the data first and write later, under the version
      the request names, with any number of other writes possible in between. A write that is
      accepted acted on the data of that version exactly when the version was already issued at
      the read; naming no row is always safe. */
  lemma MutationActsOnNamedVersion(atRead: System, between: seq<Event>, expected: Expected)
    requires IdsIssued(atRead.server) && Run(atRead, between).Some?
    requires expected.Version? || expected.NoRow?
    requires Accepts(Run(atRead, between).value.server, expected)
    ensures
      var atWrite := Run(atRead, between).value;
      Get(atRead.server) == Get(atWrite.server) <==> expected.NoRow? || expected.id < atRead.server.nextId
  {
    RunIsLater(atRead, between);
  }

  lemma {:induction false} RunKeepsRowIff(s: System, events: seq<Event>)
    requires IdsIssued(s.server) && Run(s, events).Some?
    ensures s.log <= Run(s, events).value.log
    ensures Run(s, events).value.server.row == s.server.row <==> Run(s, events).value.log == s.log
    decreases |events|
  {
    if events != [] {
      var t := Next(s, events[0]);
      assert IdsIssued(t.server) && s.log <= t.log && (t.server.row == s.server.row <==> t.log == s.log);
      RunKeepsRowIff(t, events[1..]);
      RunIsLater(t, events[1..]);
    }
  }

  /** A scan writes under the version it read, or unchecked when there was no row. Its write is
      built on the data it replaces exactly when no write was accepted since the read; one that had
      read a row is let through in no other case. */
  lemma ScanReplacesWhatItReadIff(atRead: System, between: seq<Event>)
    requires IdsIssued(atRead.server) && Run(atRead, between).Some?
    requires
      var version := Get(atRead.server).version;
      Accepts(Run(atRead, between).value.server, if version.Some? then Version(version.value) else Unchecked)
    ensures
      var atWrite := Run(atRead, between).value;
      && (Get(atWrite.server) == Get(atRead.server) <==> atWrite.log == atRead.log)
      && (atRead.server.row.Some? ==> atWrite.log == atRead.log)
  {
    RunIsLater(atRead, between);
    RunKeepsRowIff(atRead, between);
  }
}
