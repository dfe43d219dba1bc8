/** Relay sessions: their states, their byte totals, and the gauge of active connections. */
module RelaySessions {

  import opened Options

  type Id = nat

  datatype RelayState = Pending | Active | Expired | Failed

  datatype RelaySession = RelaySession(
    initiator: string,
    target: string,
    state: RelayState,
    bytesTx: int,
    bytesRx: int,
    expiresAt: Option<real>)

  type Table = map<Id, RelaySession>

  // The session table, RELAY_CONNECTIONS_ACTIVE and RELAY_FALLBACK_TOTAL.
  datatype Relays = Relays(sessions: Table, activeGauge: int, fallbackTotal: int)

  const NO_RELAYS := Relays(map[], 0, 0)
  const TIMEOUT := 86400.0    // 24 hours

  // Times are in seconds. The id of a new session is drawn by the caller; a used one violates the primary key.
  datatype RelayOp =
    | Create(id: Id, initiator: string, target: string, now: real)
    | Activate(id: Id)
    | Expire(id: Id)
    | Fail(id: Id)
    | Stats(id: Id, tx: int, rx: int)
    | Cleanup(now: real)
    | Fallback(id: Id, initiator: string, target: string, now: real)

  function NewSession(initiator: string, target: string, now: real): RelaySession {
    RelaySession(initiator, target, Pending, 0, 0, Some(now + TIMEOUT))
  }

  predicate Open(s: RelaySession) {
    s.state == Pending || s.state == Active
  }

  predicate Overdue(s: RelaySession, now: real) {
    Open(s) && s.expiresAt.Some? && s.expiresAt.value <= now
  }

  function OverdueIds(t: Table, now: real): set<Id> {
    set i | i in t && Overdue(t[i], now)
  }

  function ActiveIds(t: Table): set<Id> {
    set i | i in t && t[i].state == Active
  }

  function ExpireAll(t: Table, ids: set<Id>): Table {
    map i | i in t :: if i in ids then t[i].(state := Expired) else t[i]
  }

  // expire_ and fail_relay_session end a session whatever its state.
  function End(r: Relays, id: Id, state: RelayState): Relays {
    if id !in r.sessions then r
    else
      var s := r.sessions[id];
      r.(sessions := r.sessions[id := s.(state := state)],
         activeGauge := if s.state == Active then r.activeGauge - 1 else r.activeGauge)
  }

  function Apply(r: Relays, op: RelayOp): Relays {
    match op
    case Create(id, initiator, target, now) =>
      if id in r.sessions then r else r.(sessions := r.sessions[id := NewSession(initiator, target, now)])
    case Activate(id) =>
      if id !in r.sessions || r.sessions[id].state != Pending then r
      else r.(sessions := r.sessions[id := r.sessions[id].(state := Active)], activeGauge := r.activeGauge + 1)
    case Expire(id) => End(r, id, Expired)
    case Fail(id) => End(r, id, Failed)
    case Stats(id, tx, rx) =>
      if id !in r.sessions then r
      else
        var s := r.sessions[id];
        r.(sessions := r.sessions[id := s.(bytesTx := s.bytesTx + tx, bytesRx := s.bytesRx + rx)])
    case Cleanup(now) =>
      var stale := OverdueIds(r.sessions, now);
      r.(sessions := ExpireAll(r.sessions, stale), activeGauge := r.activeGauge - |stale * ActiveIds(r.sessions)|)
    case Fallback(id, initiator, target, now) =>
      if id in r.sessions then r
      else r.(sessions := r.sessions[id := NewSession(initiator, target, now)], fallbackTotal := r.fallbackTotal + 1)
  }

  class RelayService {
    var sessions: Table
    var activeGauge: int
    var fallbackTotal: int

    function View(): Relays
      reads this
    {
      Relays(sessions, activeGauge, fallbackTotal)
    }

    constructor ()
      ensures View() == NO_RELAYS
    {
      sessions := map[];
      activeGauge := 0;
      fallbackTotal := 0;
    }

    // Answers whether the session was inserted.
    method CreateRelaySession(id: Id, initiator: string, target: string, now: real) returns (created: bool)
      modifies this`sessions
      ensures View() == Apply(old(View()), Create(id, initiator, target, now))
      ensures created <==> id !in old(sessions)
    {
      created := id !in sessions;
      if created {
        sessions := sessions[id := NewSession(initiator, target, now)];
      }
    }

    method ActivateRelaySession(id: Id) returns (found: bool)
      modifies this
      ensures View() == Apply(old(View()), Activate(id))
      ensures found <==> id in old(sessions) && old(sessions)[id].state == Pending
    {
      if id !in sessions || sessions[id].state != Pending {
        return false;
      }
      sessions := sessions[id := sessions[id].(state := Active)];
      activeGauge := activeGauge + 1;
      found := true;
    }

    method ExpireRelaySession(id: Id) returns (found: bool)
      modifies this
      ensures View() == Apply(old(View()), Expire(id))
      ensures found <==> id in old(sessions)
    {
      found := EndSession(id, Expired);
    }

    method FailRelaySession(id: Id) returns (found: bool)
      modifies this
      ensures View() == Apply(old(View()), Fail(id))
      ensures found <==> id in old(sessions)
    {
      found := EndSession(id, Failed);
    }

    method EndSession(id: Id, state: RelayState) returns (found: bool)
      modifies this
      ensures View() == End(old(View()), id, state)
      ensures found <==> id in old(sessions)
    {
      if id !in sessions {
        return false;
      }
      var wasActive := sessions[id].state == Active;
      sessions := sessions[id := sessions[id].(state := state)];
      if wasActive {
        activeGauge := activeGauge - 1;
      }
      found := true;
    }

    method UpdateRelayStats(id: Id, tx: int, rx: int) returns (found: bool)
      modifies this
      ensures View() == Apply(old(View()), Stats(id, tx, rx))
      ensures found <==> id in old(sessions)
    {
      if id !in sessions {
        return false;
      }
      var s := sessions[id];
      sessions := sessions[id := s.(bytesTx := s.bytesTx + tx, bytesRx := s.bytesRx + rx)];
      found := true;
    }

    method CleanupExpiredRelays(now: real) returns (count: nat)
      modifies this
      ensures View() == Apply(old(View()), Cleanup(now))
      ensures count == |OverdueIds(old(sessions), now)|
    {
      ghost var t := sessions;
      var stale := OverdueIds(sessions, now);
      var activeCount := |stale * ActiveIds(sessions)|;
      var rest := stale;
      assert stale - rest == {};
      while rest != {}
        invariant rest <= stale
        invariant sessions == ExpireAll(t, stale - rest)
        invariant activeGauge == old(activeGauge) && fallbackTotal == old(fallbackTotal)
      {
        var i :| i in rest;
        sessions := sessions[i := sessions[i].(state := Expired)];
        rest := rest - {i};
      }
      assert stale - rest == stale;
      activeGauge := activeGauge - activeCount;
      count := |stale|;
    }

    method AutoCreateRelayFallback(id: Id, initiator: string, target: string, now: real) returns (created: bool)
      modifies this
      ensures View() == Apply(old(View()), Fallback(id, initiator, target, now))
      ensures created <==> id !in old(sessions)
    {
      created := CreateRelaySession(id, initiator, target, now);
      if created {
        fallbackTotal := fallbackTotal + 1;
      }
    }
  }

  // ----- Runs

  function Run(ops: seq<RelayOp>): Relays {
    if ops == [] then NO_RELAYS else Apply(Run(ops[..|ops| - 1]), ops[|ops| - 1])
  }

  /** The gauge is the number of active sessions. */
  ghost predicate GaugeExact(r: Relays) {
    r.activeGauge == |ActiveIds(r.sessions)|
  }

  predicate IsActive(t: Table, id: Id) {
    id in t && t[id].state == Active
  }

  lemma ActiveAfterUpdate(t: Table, id: Id, s: RelaySession)
    ensures |ActiveIds(t[id := s])| ==
      |ActiveIds(t)| + (if s.state == Active then 1 else 0) - (if IsActive(t, id) then 1 else 0)
  {
    ActiveIdsUpdate(t, id, s);
    WithAndWithout(ActiveIds(t), id);
    hide ActiveIds;
  }

  lemma ActiveIdsUpdate(t: Table, id: Id, s: RelaySession)
    ensures ActiveIds(t[id := s]) == if s.state == Active then ActiveIds(t) + {id} else ActiveIds(t) - {id}
    ensures id in ActiveIds(t) <==> IsActive(t, id)
  {
  }

  lemma WithAndWithout(a: set<Id>, x: Id)
    ensures |a + {x}| == |a| + if x in a then 0 else 1
    ensures |a - {x}| == |a| - if x in a then 1 else 0
  {
    if x in a { assert a + {x} == a; } else { assert a - {x} == a; }
  }

  lemma ActiveAfterExpiry(t: Table, ids: set<Id>)
    ensures |ActiveIds(ExpireAll(t, ids))| == |ActiveIds(t)| - |ids * ActiveIds(t)|
  {
    var before := ActiveIds(t);
    assert ActiveIds(ExpireAll(t, ids)) == before - ids;
    assert before == (before - ids) + ids * before;
  }

  lemma GaugeKept(r: Relays, op: RelayOp)
    requires GaugeExact(r)
    ensures GaugeExact(Apply(r, op))
  {
    hide ActiveIds; hide OverdueIds; hide ExpireAll;
    var r' := Apply(r, op);
    if op.Cleanup? {
      ActiveAfterExpiry(r.sessions, OverdueIds(r.sessions, op.now));
    } else if op.id in r'.sessions {
      var s := r'.sessions[op.id];
      assert r'.sessions == r.sessions[op.id := s];
      ActiveAfterUpdate(r.sessions, op.id, s);
      assert r'.activeGauge == r.activeGauge + (if s.state == Active then 1 else 0) - (if IsActive(r.sessions, op.id) then 1 else 0);
    }
  }

  /** Over every run the gauge of active connections is exact. */
  lemma {:induction false} GaugeIsExact(ops: seq<RelayOp>)
    ensures GaugeExact(Run(ops))
  {
    if ops != [] {
      GaugeIsExact(ops[..|ops| - 1]);
      GaugeKept(Run(ops[..|ops| - 1]), ops[|ops| - 1]);
    } else {
      assert ActiveIds(map[]) == {};
    }
  }

  /** No step removes a session or opens one that has ended; only activation of a pending session makes one active. */
  lemma StepKeepsEnded(r: Relays, op: RelayOp, id: Id)
    requires id in r.sessions
    ensures id in Apply(r, op).sessions
    ensures !Open(r.sessions[id]) ==> !Open(Apply(r, op).sessions[id])
    ensures Apply(r, op).sessions[id].state == Active ==>
      r.sessions[id].state == Active || (r.sessions[id].state == Pending && op == Activate(id))
    ensures Apply(r, op).sessions[id].state == Pending ==> r.sessions[id].state == Pending
  {
  }

  /** A session that has expired or failed is never pending or active again. */
  lemma {:induction false} EndedForever(ops: seq<RelayOp>, more: seq<RelayOp>, id: Id)
    requires id in Run(ops).sessions && !Open(Run(ops).sessions[id])
    ensures id in Run(ops + more).sessions && !Open(Run(ops + more).sessions[id])
  {
    if more == [] {
      assert ops + more == ops;
    } else {
      var init, last := more[..|more| - 1], more[|more| - 1];
      EndedForever(ops, init, id);
      RunStep(ops, more);
      StepKeepsEnded(Run(ops + init), last, id);
      hide Apply; hide Run; hide Open;
    }
  }

  lemma RunStep(ops: seq<RelayOp>, more: seq<RelayOp>)
    requires more != []
    ensures Run(ops + more) == Apply(Run(ops + more[..|more| - 1]), more[|more| - 1])
  {
    assert (ops + more)[..|ops + more| - 1] == ops + more[..|more| - 1];
  }

  /** Right after a cleanup no open session is overdue, and the sessions that were not overdue are as before. */
  lemma CleanupLeavesNoneOverdue(r: Relays, now: real)
    ensures var r' := Apply(r, Cleanup(now));
      && r'.sessions.Keys == r.sessions.Keys
      && (forall i | i in r'.sessions :: !Overdue(r'.sessions[i], now))
      && (forall i | i in r.sessions && !Overdue(r.sessions[i], now) :: r'.sessions[i] == r.sessions[i])
      && (forall i | i in r.sessions && Overdue(r.sessions[i], now) :: r'.sessions[i].state == Expired)
  {
  }

  /** The sums of the deltas reported for a session that existed at the time. */
  function Reported(ops: seq<RelayOp>, id: Id): (int, int) {
    if ops == [] then (0, 0)
    else
      var init, last := ops[..|ops| - 1], ops[|ops| - 1];
      var (tx, rx) := Reported(init, id);
      if last.Stats? && last.id == id && id in Run(init).sessions then (tx + last.tx, rx + last.rx) else (tx, rx)
  }

  /** The byte totals of a session are the sums of what was reported for it. */
  lemma {:induction false} TotalsAreReported(ops: seq<RelayOp>, id: Id)
    ensures id in Run(ops).sessions ==>
      (Run(ops).sessions[id].bytesTx, Run(ops).sessions[id].bytesRx) == Reported(ops, id)
    ensures id !in Run(ops).sessions ==> Reported(ops, id) == (0, 0)
  {
    if ops != [] {
      TotalsAreReported(ops[..|ops| - 1], id);
    }
  }
}
