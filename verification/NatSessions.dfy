/** NAT hole-punching sessions: their states, their gauge, the paths they promote and the relays they fall back to. */
module NatSessions {

  import opened Options
  import opened Endpoints
  import EndpointRows
  import Relay = RelaySessions

  type Id = nat

  // Nothing sets Punching, but the expiry query lists it.
  datatype NatState = Pending | Coordinating | Punching | Connected | Failed | Expired

  datatype Selected = Selected(endpoint: Option<string>, port: Option<int>, latencyMs: Option<int>)

  // failureCount is extra_metadata["failure_count"], 0 when absent.
  datatype NatSession = NatSession(
    initiator: string,
    target: string,
    state: NatState,
    selected: Option<Selected>,
    established: bool,
    failureCount: int,
    expiresAt: real)

  type Table = map<Id, NatSession>

  // The tables of one database, and the two gauges.
  datatype World = World(sessions: Table, activeGauge: int, relays: Relay.Relays, rows: EndpointRows.Rows)

  const TIMEOUT := 300.0    // 5 minutes

  datatype NatOp =
    | Create(id: Id, initiator: string, target: string, failureCount: int, now: real)
    | StartPunch(id: Id, now: real)
    | Succeed(id: Id, selected: Selected)
    | Fail(id: Id, relayId: Relay.Id, now: real)
    | Validate(id: Id, endpoint: string, port: int, reachable: bool, latencyMs: Option<int>)
    | ExpireStale(now: real)

  // Everything that happens to these tables.
  datatype Op = Nat(act: NatOp) | Relays(relay: Relay.RelayOp) | Rows(row: EndpointRows.RowOp)

  function NewSession(initiator: string, target: string, failureCount: int, now: real): NatSession {
    NatSession(initiator, target, Pending, None, false, failureCount, now + TIMEOUT)
  }

  predicate Waiting(s: NatSession) {
    s.state == Pending || s.state == Coordinating || s.state == Punching
  }

  function StaleIds(t: Table, now: real): set<Id> {
    set i | i in t && Waiting(t[i]) && t[i].expiresAt <= now
  }

  function ExpireAll(t: Table, ids: set<Id>): Table {
    map i | i in t :: if i in ids then t[i].(state := Expired) else t[i]
  }

  function Connect(s: NatSession, selected: Selected): NatSession {
    s.(state := Connected, established := true, selected := Some(selected))
  }

  /** Promotion of the selected endpoint; None stands for its exception, which rolls everything back. */
  function Promote(rows: EndpointRows.Rows, target: string, endpoint: string, port: int, latencyMs: Option<int>)
    : Option<EndpointRows.Rows>
  {
    var (rows', o) := EndpointRows.ApplyPromote(rows, target, endpoint, port, latencyMs);
    if o == EndpointRows.ManyRows then None else Some(rows')
  }

  // Whether a success names an endpoint and a port to promote.
  predicate Names(s: Selected) {
    s.endpoint.Some? && s.endpoint.value != "" && s.port.Some? && s.port.value != 0
  }

  function Apply(w: World, op: NatOp): World {
    match op
    case Create(id, initiator, target, failureCount, now) =>
      if id in w.sessions then w
      else w.(sessions := w.sessions[id := NewSession(initiator, target, failureCount, now)], activeGauge := w.activeGauge + 1)
    case StartPunch(id, now) =>
      if id !in w.sessions || w.sessions[id].state != Pending || w.sessions[id].expiresAt <= now then w
      else w.(sessions := w.sessions[id := w.sessions[id].(state := Coordinating)])
    case Succeed(id, selected) =>
      if id !in w.sessions then w
      else
        var s := w.sessions[id];
        var w' := w.(sessions := w.sessions[id := Connect(s, selected)]);
        if !Names(selected) then w'
        else
          var rows := Promote(w.rows, s.target, selected.endpoint.value, selected.port.value, selected.latencyMs);
          if rows.None? then w else w'.(rows := rows.value)
    case Fail(id, relayId, now) =>
      if id !in w.sessions then w
      else
        var s := w.sessions[id];
        var w' := w.(sessions := w.sessions[id := s.(state := Failed, failureCount := s.failureCount + 1)]);
        if s.failureCount + 1 < 2 then w'
        else w'.(relays := Relay.Apply(w.relays, Relay.Fallback(relayId, s.initiator, s.target, now)))
    case Validate(id, endpoint, port, reachable, latencyMs) =>
      if id !in w.sessions || !reachable then w
      else
        var s := w.sessions[id];
        var rows := Promote(w.rows, s.target, endpoint, port, latencyMs);
        if rows.None? then w
        else
          w.(sessions := w.sessions[id := Connect(s, Selected(Some(endpoint), Some(port), latencyMs))], rows := rows.value)
    case ExpireStale(now) =>
      var stale := StaleIds(w.sessions, now);
      w.(sessions := ExpireAll(w.sessions, stale), activeGauge := w.activeGauge - |stale|)
  }

  function Step(devices: set<string>, w: World, op: Op): World {
    match op
    case Nat(o) => Apply(w, o)
    case Relays(o) => w.(relays := Relay.Apply(w.relays, o))
    case Rows(o) => w.(rows := EndpointRows.Apply(devices, w.rows, o).0)
  }

  /** Two active rows of the target have the endpoint and port, so that its promotion raises. */
  ghost predicate PromotionRaises(rows: EndpointRows.Rows, target: string, endpoint: string, port: int) {
    var p := EndpointRows.PromotableRows(target, endpoint, port);
    exists i, j :: 0 <= i < j < |rows| && p(rows[i]) && p(rows[j])
  }

  lemma RaisesIff(rows: EndpointRows.Rows, target: string, endpoint: string, port: int, latencyMs: Option<int>)
    ensures EndpointRows.ApplyPromote(rows, target, endpoint, port, latencyMs).1 == EndpointRows.ManyRows
       <==> PromotionRaises(rows, target, endpoint, port)
  {
    EndpointRows.PromotionOutcome(rows, target, endpoint, port, latencyMs);
  }

  class NatService {
    var sessions: Table
    var activeGauge: int
    const relays: Relay.RelayService
    const endpoints: EndpointRows.EndpointTable

    function View(): World
      reads this, relays, endpoints
    {
      World(sessions, activeGauge, relays.View(), endpoints.rows)
    }

    constructor (relays: Relay.RelayService, endpoints: EndpointRows.EndpointTable)
      ensures this.relays == relays && this.endpoints == endpoints
      ensures View() == World(map[], 0, relays.View(), endpoints.rows)
    {
      sessions := map[];
      activeGauge := 0;
      this.relays := relays;
      this.endpoints := endpoints;
    }

    method CreateNatSession(id: Id, initiator: string, target: string, failureCount: int, now: real)
      modifies this
      ensures View() == Apply(old(View()), Create(id, initiator, target, failureCount, now))
    {
      if id !in sessions {
        sessions := sessions[id := NewSession(initiator, target, failureCount, now)];
        activeGauge := activeGauge + 1;
      }
    }

    method Punch(id: Id, now: real) returns (started: bool)
      modifies this
      ensures View() == Apply(old(View()), StartPunch(id, now))
      ensures started <==> id in old(sessions) && old(sessions)[id].state == Pending && now < old(sessions)[id].expiresAt
    {
      if id !in sessions || sessions[id].state != Pending || sessions[id].expiresAt <= now {
        return false;
      }
      sessions := sessions[id := sessions[id].(state := Coordinating)];
      started := true;
    }

    /** record_punch_result with success; raised tells that the promotion raised and the transaction was rolled back. */
    method RecordSuccess(id: Id, selected: Selected) returns (raised: bool)
      modifies this, endpoints
      ensures View() == Apply(old(View()), Succeed(id, selected))
      ensures raised <==>
        && id in old(sessions) && Names(selected)
        && PromotionRaises(old(endpoints.rows), old(sessions)[id].target, selected.endpoint.value, selected.port.value)
    {
      hide EndpointRows.ApplyPromote;
      if id !in sessions {
        return false;
      }
      var before := sessions;
      sessions := sessions[id := Connect(sessions[id], selected)];
      if Names(selected) {
        RaisesIff(endpoints.rows, sessions[id].target, selected.endpoint.value, selected.port.value, selected.latencyMs);
        var o := endpoints.PromoteEndpoint(sessions[id].target, selected.endpoint.value, selected.port.value, selected.latencyMs);
        if o == EndpointRows.ManyRows {
          Raises(old(endpoints.rows), sessions[id].target, selected.endpoint.value, selected.port.value, selected.latencyMs);
          sessions := before;
          return true;
        }
      }
      raised := false;
    }

    /** record_punch_result with a failure. */
    method RecordFailure(id: Id, relayId: Relay.Id, now: real)
      modifies this, relays
      ensures View() == Apply(old(View()), Fail(id, relayId, now))
    {
      if id in sessions {
        var s := sessions[id];
        s := s.(state := Failed, failureCount := s.failureCount + 1);
        sessions := sessions[id := s];
        if s.failureCount >= 2 {
          var _ := relays.AutoCreateRelayFallback(relayId, s.initiator, s.target, now);
        }
      }
    }

    method ValidateConnectivity(id: Id, endpoint: string, port: int, reachable: bool, latencyMs: Option<int>)
      returns (o: Option<EndpointRows.Outcome>)
      modifies this, endpoints
      ensures View() == Apply(old(View()), Validate(id, endpoint, port, reachable, latencyMs))
      ensures o.Some? <==> id in old(sessions) && reachable
      ensures o.Some? ==>
        && o.value == EndpointRows.ApplyPromote(old(endpoints.rows), old(sessions)[id].target, endpoint, port, latencyMs).1
        && (o.value == EndpointRows.ManyRows <==>
              PromotionRaises(old(endpoints.rows), old(sessions)[id].target, endpoint, port))
    {
      hide EndpointRows.ApplyPromote;
      if id !in sessions || !reachable {
        return None;
      }
      var before := sessions;
      sessions := sessions[id := Connect(sessions[id], Selected(Some(endpoint), Some(port), latencyMs))];
      RaisesIff(endpoints.rows, sessions[id].target, endpoint, port, latencyMs);
      var promoted := endpoints.PromoteEndpoint(sessions[id].target, endpoint, port, latencyMs);
      if promoted == EndpointRows.ManyRows {
        Raises(old(endpoints.rows), sessions[id].target, endpoint, port, latencyMs);
        sessions := before;
      }
      o := Some(promoted);
    }

    method ExpireStaleSessions(now: real) returns (count: nat)
      modifies this
      ensures View() == Apply(old(View()), ExpireStale(now))
      ensures count == |StaleIds(old(sessions), now)|
    {
      ghost var t := sessions;
      var stale := StaleIds(sessions, now);
      var rest := stale;
      assert stale - rest == {};
      while rest != {}
        invariant rest <= stale && activeGauge == old(activeGauge)
        invariant sessions == ExpireAll(t, stale - rest)
      {
        var i :| i in rest;
        sessions := sessions[i := sessions[i].(state := Expired)];
        rest := rest - {i};
      }
      assert stale - rest == stale;
      activeGauge := activeGauge - |stale|;
      count := |stale|;
    }
  }

  lemma Raises(rows: EndpointRows.Rows, deviceId: string, endpoint: string, port: int, latencyMs: Option<int>)
    ensures EndpointRows.ApplyPromote(rows, deviceId, endpoint, port, latencyMs).1 == EndpointRows.ManyRows ==>
      EndpointRows.ApplyPromote(rows, deviceId, endpoint, port, latencyMs).0 == rows
  {
    hide EndpointRows.ActiveRows; hide EndpointRows.IsPreferred;
  }

  // ----- Runs

  const EMPTY := World(map[], 0, Relay.NO_RELAYS, [])

  function Run(devices: set<string>, ops: seq<Op>): World {
    if ops == [] then EMPTY else Step(devices, Run(devices, ops[..|ops| - 1]), ops[|ops| - 1])
  }

  // The sessions that a step of the run expires.
  function ExpiredNow(w: World, op: Op): set<Id> {
    if op.Nat? && op.act.ExpireStale? then StaleIds(w.sessions, op.act.now) else {}
  }

  /** The sessions that some step of the run expired. */
  function EverExpired(devices: set<string>, ops: seq<Op>): set<Id> {
    if ops == [] then {}
    else
      var init := ops[..|ops| - 1];
      EverExpired(devices, init) + ExpiredNow(Run(devices, init), ops[|ops| - 1])
  }

  predicate SessionGood(s: NatSession) {
    && (s.established <==> s.selected.Some?)
    && (s.state == Connected ==> s.established)
  }

  /** What every step keeps for the sessions that exist. */
  lemma StepOnSession(devices: set<string>, w: World, op: Op, id: Id)
    requires id in w.sessions
    ensures var s, w' := w.sessions[id], Step(devices, w, op);
      && id in w'.sessions
      && (SessionGood(s) ==> SessionGood(w'.sessions[id]))
      && (s.established ==> w'.sessions[id].established)
      && (!Waiting(s) ==> !Waiting(w'.sessions[id]))
      && (id in ExpiredNow(w, op) ==> Waiting(s) && w'.sessions[id].state == Expired)
  {
    hide EndpointRows.ApplyPromote; hide EndpointRows.Apply; hide Relay.Apply;
  }

  lemma StepOnTable(devices: set<string>, w: World, op: Op)
    ensures var w' := Step(devices, w, op);
      && w.sessions.Keys <= w'.sessions.Keys
      && (forall i | i in w'.sessions && i !in w.sessions :: SessionGood(w'.sessions[i]))
      && w'.activeGauge == w.activeGauge + |w'.sessions| - |w.sessions| - |ExpiredNow(w, op)|
  {
    hide EndpointRows.ApplyPromote; hide EndpointRows.Apply; hide Relay.Apply;
    var w' := Step(devices, w, op);
    assert !(op.Nat? && op.act.Create?) ==> w'.sessions.Keys == w.sessions.Keys;
    SameKeys(w.sessions, w'.sessions);
  }

  lemma SameKeys(a: Table, b: Table)
    ensures a.Keys == b.Keys ==> |a| == |b|
  {
    assert |a| == |a.Keys| && |b| == |b.Keys|;
  }

  /**
   * Over every run the gauge of NAT sessions is the number created minus the number ever expired; a session that was
   * expired never waits again, so it is counted out once.
   */
  lemma {:induction false} GaugeOverRuns(devices: set<string>, ops: seq<Op>)
    ensures var w, expired := Run(devices, ops), EverExpired(devices, ops);
      && w.activeGauge == |w.sessions| - |expired|
      && (forall i | i in expired :: i in w.sessions && !Waiting(w.sessions[i]))
  {
    hide Step;
    if ops != [] {
      var init, op := ops[..|ops| - 1], ops[|ops| - 1];
      var w, w', before, now := Run(devices, init), Run(devices, ops), EverExpired(devices, init), ExpiredNow(Run(devices, init), op);
      GaugeOverRuns(devices, init);
      StepOnTable(devices, w, op);
      forall i | i in before + now ensures i in w'.sessions && !Waiting(w'.sessions[i]) {
        StepOnSession(devices, w, op, i);
      }
      assert before !! now;
    }
  }

  /** Connectivity is established exactly when a candidate is selected, and whenever the session is connected. */
  lemma {:induction false} SessionsStayGood(devices: set<string>, ops: seq<Op>)
    ensures forall i | i in Run(devices, ops).sessions :: SessionGood(Run(devices, ops).sessions[i])
  {
    hide Step;
    if ops != [] {
      var init, op := ops[..|ops| - 1], ops[|ops| - 1];
      SessionsStayGood(devices, init);
      var w, w' := Run(devices, init), Run(devices, ops);
      StepOnTable(devices, w, op);
      forall i | i in w'.sessions ensures SessionGood(w'.sessions[i]) {
        if i in w.sessions { StepOnSession(devices, w, op, i); }
      }
    }
  }

  /** Once established, connectivity stays established. */
  lemma {:induction false} EstablishedForever(devices: set<string>, ops: seq<Op>, more: seq<Op>, id: Id)
    requires id in Run(devices, ops).sessions && Run(devices, ops).sessions[id].established
    ensures id in Run(devices, ops + more).sessions && Run(devices, ops + more).sessions[id].established
  {
    hide Step;
    if more == [] {
      assert ops + more == ops;
    } else {
      var init, op := more[..|more| - 1], more[|more| - 1];
      EstablishedForever(devices, ops, init, id);
      assert (ops + more)[..|ops + more| - 1] == ops + init;
      StepOnSession(devices, Run(devices, ops + init), op, id);
    }
  }

  /** Over every run of all three kinds of steps the relay gauge is exact. */
  lemma {:induction false} RelayGaugeOverRuns(devices: set<string>, ops: seq<Op>)
    ensures Relay.GaugeExact(Run(devices, ops).relays)
  {
    hide Relay.GaugeExact; hide Relay.Apply; hide EndpointRows.ApplyPromote;
    if ops == [] {
      Relay.GaugeIsExact([]);
    } else {
      var init, op := ops[..|ops| - 1], ops[|ops| - 1];
      RelayGaugeOverRuns(devices, init);
      var w := Run(devices, init);
      if op.Relays? { Relay.GaugeKept(w.relays, op.relay); }
      if op.Nat? && op.act.Fail? && op.act.id in w.sessions {
        var s := w.sessions[op.act.id];
        Relay.GaugeKept(w.relays, Relay.Fallback(op.act.relayId, s.initiator, s.target, op.act.now));
      }
    }
  }

  // ----- Fallback relays

  /** The steps of the run that record a failure of an existing session id. */
  function Failures(devices: set<string>, ops: seq<Op>, id: Id): nat {
    if ops == [] then 0
    else
      var init, op := ops[..|ops| - 1], ops[|ops| - 1];
      Failures(devices, init, id)
      + if op.Nat? && op.act.Fail? && op.act.id == id && id in Run(devices, init).sessions then 1 else 0
  }

  /** The steps of the run that record a failure of session id and add a relay session. */
  function Spawned(devices: set<string>, ops: seq<Op>, id: Id): nat {
    if ops == [] then 0
    else
      var init, op := ops[..|ops| - 1], ops[|ops| - 1];
      Spawned(devices, init, id)
      + if op.Nat? && op.act.Fail? && op.act.id == id
           && |Run(devices, ops).relays.sessions| > |Run(devices, init).relays.sessions| then 1 else 0
  }

  /** The ids drawn for fallback relay sessions are new. */
  ghost predicate FreshRelays(devices: set<string>, ops: seq<Op>) {
    ops == [] ||
    (var init, op := ops[..|ops| - 1], ops[|ops| - 1];
     FreshRelays(devices, init)
     && (op.Nat? && op.act.Fail? ==> op.act.relayId !in Run(devices, init).relays.sessions))
  }

  /** The failure count that session id was created with in the run. */
  function Initial(devices: set<string>, ops: seq<Op>, id: Id): int {
    if ops == [] then 0
    else
      var init, op := ops[..|ops| - 1], ops[|ops| - 1];
      if op.Nat? && op.act.Create? && op.act.id == id && id !in Run(devices, init).sessions then op.act.failureCount
      else Initial(devices, init, id)
  }

  lemma FailStep(w: World, op: NatOp)
    requires op.Fail? && op.id in w.sessions && op.relayId !in w.relays.sessions
    ensures var s, w' := w.sessions[op.id], Apply(w, op);
      && op.id in w'.sessions && w'.sessions[op.id].failureCount == s.failureCount + 1
      && (s.failureCount + 1 >= 2 ==>
            op.relayId in w'.relays.sessions && |w'.relays.sessions| == |w.relays.sessions| + 1
            && w'.relays.sessions[op.relayId] == Relay.NewSession(s.initiator, s.target, op.now)
            && w'.relays.fallbackTotal == w.relays.fallbackTotal + 1)
      && (s.failureCount + 1 < 2 ==> w'.relays == w.relays)
  {
  }

  lemma OtherStep(devices: set<string>, w: World, op: Op, id: Id)
    requires !(op.Nat? && op.act.Fail? && op.act.id == id)
    ensures var w' := Step(devices, w, op);
      && (id in w.sessions ==> id in w'.sessions && w'.sessions[id].failureCount == w.sessions[id].failureCount)
      && (id !in w.sessions && id in w'.sessions ==>
            op.Nat? && op.act.Create? && op.act.id == id && w'.sessions[id].failureCount == op.act.failureCount)
      && (op.Nat? && op.act.Create? && op.act.id == id ==> id in w'.sessions)
  {
    hide EndpointRows.ApplyPromote; hide EndpointRows.Apply; hide Relay.Apply;
  }

  /**
   * The relay sessions that a NAT session spawns: from a failure count of k at creation, f failures spawn
   * max(0, min(f, f + k - 1)) of them, so f - 1 when it starts at 0; successes in between change nothing.
   */
  lemma {:induction false} SpawnedRelays(devices: set<string>, ops: seq<Op>, id: Id)
    requires FreshRelays(devices, ops)
    ensures var w, f, k := Run(devices, ops), Failures(devices, ops, id), Initial(devices, ops, id);
      && Spawned(devices, ops, id) == Max(0, Min(f, f + k - 1))
      && (id in w.sessions ==> w.sessions[id].failureCount == k + f)
      && (id !in w.sessions ==> f == 0 && k == 0)
  {
    hide Step; hide Apply;
    if ops != [] {
      var init, op := ops[..|ops| - 1], ops[|ops| - 1];
      SpawnedRelays(devices, init, id);
      var w := Run(devices, init);
      if op.Nat? && op.act.Fail? && op.act.id == id {
        FailSteps(devices, w, op);
      } else {
        OtherStep(devices, w, op, id);
      }
    }
  }

  lemma FailSteps(devices: set<string>, w: World, op: Op)
    requires op.Nat? && op.act.Fail? && op.act.relayId !in w.relays.sessions
    ensures var w' := Step(devices, w, op);
      && (op.act.id !in w.sessions ==> w' == w)
      && (op.act.id in w.sessions ==>
            var count := w.sessions[op.act.id].failureCount + 1;
            && op.act.id in w'.sessions && w'.sessions[op.act.id].failureCount == count
            && |w'.relays.sessions| == |w.relays.sessions| + if count >= 2 then 1 else 0)
  {
    if op.act.id in w.sessions { FailStep(w, op.act); }
  }
}
