/** NAT and relay sessions in literal terms: what each step writes, when sessions run out, and what the gauges count. */
module SessionMeaning {

  import opened Options
  import Endpoints
  import EndpointRows
  import EndpointMeaning
  import Nat = NatSessions
  import Relay = RelaySessions

  // ----- NAT sessions

  /** A new session waits for 300 seconds and counts in the gauge. */
  lemma NatCreateIs(w: Nat.World, id: Nat.Id, initiator: string, target: string, failures: int, now: real)
    requires id !in w.sessions
    ensures var w' := Nat.Apply(w, Nat.Create(id, initiator, target, failures, now));
      && w'.sessions.Keys == w.sessions.Keys + {id} && w'.activeGauge == w.activeGauge + 1
      && (forall i | i in w.sessions :: w'.sessions[i] == w.sessions[i]) && w'.relays == w.relays && w'.rows == w.rows
      && var s := w'.sessions[id];
         && s.initiator == initiator && s.target == target && s.state == Nat.Pending && s.selected == None
         && !s.established && s.failureCount == failures && s.expiresAt == now + 300.0
  {
  }

  /** A punch starts for a pending session that has time left, and changes its state only. */
  lemma NatPunchIs(w: Nat.World, id: Nat.Id, now: real)
    ensures var w' := Nat.Apply(w, Nat.StartPunch(id, now));
      if id in w.sessions && w.sessions[id].state == Nat.Pending && now < w.sessions[id].expiresAt then
        w' == w.(sessions := w.sessions[id := w.sessions[id].(state := Nat.Coordinating)])
      else w' == w
  {
  }

  // A session whose target has been reached at a candidate.
  ghost predicate IsConnected(s: Nat.NatSession, before: Nat.NatSession, candidate: Nat.Selected) {
    && s.state == Nat.Connected && s.established && s.selected == Some(candidate)
    && s.initiator == before.initiator && s.target == before.target
    && s.failureCount == before.failureCount && s.expiresAt == before.expiresAt
  }

  /**
   * A success connects the session. When it names an endpoint, not empty, and a port, not 0, the endpoint is promoted for
   * the target, or nothing changes at all when that raises; otherwise no row changes.
   */
  lemma NatSuccessIs(w: Nat.World, id: Nat.Id, candidate: Nat.Selected)
    requires id in w.sessions
    ensures var w' := Nat.Apply(w, Nat.Succeed(id, candidate));
      var target := w.sessions[id].target;
      && w'.sessions.Keys == w.sessions.Keys && w'.activeGauge == w.activeGauge && w'.relays == w.relays
      && (forall i | i in w.sessions && i != id :: w'.sessions[i] == w.sessions[i])
      && (candidate.endpoint.Some? && candidate.endpoint.value != "" && candidate.port.Some? && candidate.port.value != 0 ==>
            var (rows', o) :=
              EndpointRows.ApplyPromote(w.rows, target, candidate.endpoint.value, candidate.port.value, candidate.latencyMs);
            && (o == EndpointRows.ManyRows ==> w' == w)
            && (o != EndpointRows.ManyRows ==> w'.rows == rows' && IsConnected(w'.sessions[id], w.sessions[id], candidate)))
      && (candidate.endpoint == None || candidate.endpoint == Some("") || candidate.port == None || candidate.port == Some(0) ==>
            w'.rows == w.rows && IsConnected(w'.sessions[id], w.sessions[id], candidate))
  {
    hide EndpointRows.ApplyPromote;
  }

  /** A failure fails the session and counts; from the second failure on a relay session is made for its two devices. */
  lemma NatFailureIs(w: Nat.World, id: Nat.Id, relay: Relay.Id, now: real)
    requires id in w.sessions
    ensures var w' := Nat.Apply(w, Nat.Fail(id, relay, now));
      var s, s' := w.sessions[id], w'.sessions[id];
      && w'.sessions == w.sessions[id := s'] && w'.activeGauge == w.activeGauge && w'.rows == w.rows
      && s'.state == Nat.Failed && s'.failureCount == s.failureCount + 1
      && (s'.initiator, s'.target, s'.established, s'.selected, s'.expiresAt) ==
         (s.initiator, s.target, s.established, s.selected, s.expiresAt)
      && (s.failureCount <= 0 ==> w'.relays == w.relays)
      && (s.failureCount >= 1 && relay !in w.relays.sessions ==>
            w'.relays == w.relays.(
              sessions := w.relays.sessions[relay :=
                Relay.RelaySession(s.initiator, s.target, Relay.Pending, 0, 0, Some(now + 86400.0))],
              fallbackTotal := w.relays.fallbackTotal + 1))
  {
  }

  /** An unreachable endpoint changes nothing; a reachable one is promoted for the target and connects the session. */
  lemma NatValidationIs(w: Nat.World, id: Nat.Id, endpoint: string, port: int, reachable: bool, latencyMs: Option<int>)
    requires id in w.sessions
    ensures var w' := Nat.Apply(w, Nat.Validate(id, endpoint, port, reachable, latencyMs));
      var (rows', o) := EndpointRows.ApplyPromote(w.rows, w.sessions[id].target, endpoint, port, latencyMs);
      && (!reachable || o == EndpointRows.ManyRows ==> w' == w)
      && (reachable && o != EndpointRows.ManyRows ==>
            && w'.sessions.Keys == w.sessions.Keys && w'.activeGauge == w.activeGauge && w'.relays == w.relays && w'.rows == rows'
            && (forall i | i in w.sessions && i != id :: w'.sessions[i] == w.sessions[i])
            && IsConnected(w'.sessions[id], w.sessions[id], Nat.Selected(Some(endpoint), Some(port), latencyMs)))
  {
    hide EndpointRows.ApplyPromote;
  }

  // The sessions that have run out while pending, coordinating or punching.
  function RunOut(sessions: Nat.Table, now: real): set<Nat.Id> {
    set i | i in sessions
      && (sessions[i].state == Nat.Pending || sessions[i].state == Nat.Coordinating || sessions[i].state == Nat.Punching)
      && sessions[i].expiresAt <= now
  }

  /** An expiry expires exactly those that have run out, and the gauge falls by their number. */
  lemma NatExpiryIs(w: Nat.World, now: real)
    ensures var w', out := Nat.Apply(w, Nat.ExpireStale(now)), RunOut(w.sessions, now);
      && w'.sessions.Keys == w.sessions.Keys && w'.relays == w.relays && w'.rows == w.rows
      && w'.activeGauge == w.activeGauge - |out| && |Nat.StaleIds(w.sessions, now)| == |out|
      && forall i | i in w.sessions ::
           w'.sessions[i] == if i in out then w.sessions[i].(state := Nat.Expired) else w.sessions[i]
  {
    assert Nat.StaleIds(w.sessions, now) == RunOut(w.sessions, now);
  }

  /** Every change of a NAT session's state is one of these; no step ever puts one in state punching. */
  lemma NatTransitions(w: Nat.World, op: Nat.NatOp, id: Nat.Id)
    requires id in w.sessions
    ensures var before := w.sessions[id].state;
      var w' := Nat.Apply(w, op);
      && id in w'.sessions
      && var after := w'.sessions[id].state;
         || after == before
         || (op.StartPunch? && before == Nat.Pending && after == Nat.Coordinating)
         || ((op.Succeed? || op.Validate?) && after == Nat.Connected)
         || (op.Fail? && after == Nat.Failed)
         || (op.ExpireStale? && after == Nat.Expired
             && (before == Nat.Pending || before == Nat.Coordinating || before == Nat.Punching))
  {
    hide EndpointRows.ApplyPromote; hide Relay.Apply;
  }

  /** Over every run connectivity is established exactly when a candidate is selected, and always when connected. */
  lemma EstablishedIs(devices: set<string>, ops: seq<Nat.Op>, id: Nat.Id)
    requires id in Nat.Run(devices, ops).sessions
    ensures var s := Nat.Run(devices, ops).sessions[id];
      (s.established <==> s.selected.Some?) && (s.state == Nat.Connected ==> s.established)
  {
    Nat.SessionsStayGood(devices, ops);
    hide Nat.Run;
  }

  // ----- Relay sessions

  /** A new relay session is pending for 24 hours, with nothing transferred. */
  lemma RelayCreateIs(r: Relay.Relays, id: Relay.Id, initiator: string, target: string, now: real)
    requires id !in r.sessions
    ensures var made := Relay.RelaySession(initiator, target, Relay.Pending, 0, 0, Some(now + 86400.0));
      && Relay.Apply(r, Relay.Create(id, initiator, target, now)) == r.(sessions := r.sessions[id := made])
      && Relay.Apply(r, Relay.Fallback(id, initiator, target, now)) ==
         r.(sessions := r.sessions[id := made], fallbackTotal := r.fallbackTotal + 1)
  {
  }

  /** Only a pending session is activated; ending a session takes it out of the gauge if it was active. */
  lemma RelayStepsAre(r: Relay.Relays, id: Relay.Id, tx: int, rx: int)
    requires id in r.sessions
    ensures var s := r.sessions[id];
      && (s.state == Relay.Pending ==>
            Relay.Apply(r, Relay.Activate(id)) ==
            r.(sessions := r.sessions[id := s.(state := Relay.Active)], activeGauge := r.activeGauge + 1))
      && (s.state != Relay.Pending ==> Relay.Apply(r, Relay.Activate(id)) == r)
      && Relay.Apply(r, Relay.Expire(id)) ==
         r.(sessions := r.sessions[id := s.(state := Relay.Expired)],
            activeGauge := r.activeGauge - if s.state == Relay.Active then 1 else 0)
      && Relay.Apply(r, Relay.Fail(id)) ==
         r.(sessions := r.sessions[id := s.(state := Relay.Failed)],
            activeGauge := r.activeGauge - if s.state == Relay.Active then 1 else 0)
      && Relay.Apply(r, Relay.Stats(id, tx, rx)) ==
         r.(sessions := r.sessions[id := s.(bytesTx := s.bytesTx + tx, bytesRx := s.bytesRx + rx)])
  {
  }

  // The relay sessions that have run out while pending or active.
  function RelayRunOut(sessions: Relay.Table, now: real): set<Relay.Id> {
    set i | i in sessions
      && (sessions[i].state == Relay.Pending || sessions[i].state == Relay.Active)
      && match sessions[i].expiresAt case None => false case Some(t) => t <= now
  }

  /** A cleanup expires exactly those, and the gauge falls by the number of them that were active. */
  lemma RelayCleanupIs(r: Relay.Relays, now: real)
    ensures var r', out := Relay.Apply(r, Relay.Cleanup(now)), RelayRunOut(r.sessions, now);
      && r'.sessions.Keys == r.sessions.Keys && r'.fallbackTotal == r.fallbackTotal
      && |Relay.OverdueIds(r.sessions, now)| == |out|
      && r'.activeGauge == r.activeGauge - |set i | i in out && r.sessions[i].state == Relay.Active|
      && forall i | i in r.sessions ::
           r'.sessions[i] == if i in out then r.sessions[i].(state := Relay.Expired) else r.sessions[i]
  {
    var out := RelayRunOut(r.sessions, now);
    assert Relay.OverdueIds(r.sessions, now) == out;
    assert out * Relay.ActiveIds(r.sessions) == set i | i in out && r.sessions[i].state == Relay.Active;
  }

  /** Over every run the relay gauge is the number of sessions in state active. */
  lemma RelayGaugeIs(ops: seq<Relay.RelayOp>)
    ensures var r := Relay.Run(ops); r.activeGauge == |set i | i in r.sessions && r.sessions[i].state == Relay.Active|
  {
    Relay.GaugeIsExact(ops);
    assert Relay.ActiveIds(Relay.Run(ops).sessions) ==
      set i | i in Relay.Run(ops).sessions && Relay.Run(ops).sessions[i].state == Relay.Active;
  }

  /** Operations on relay sessions that do not exist change nothing, nor does creating one that does. */
  lemma RelayUnknown(r: Relay.Relays, id: Relay.Id, a: string, b: string, tx: int, rx: int, now: real)
    ensures id !in r.sessions ==>
      Relay.Apply(r, Relay.Activate(id)) == Relay.Apply(r, Relay.Expire(id)) == Relay.Apply(r, Relay.Fail(id))
        == Relay.Apply(r, Relay.Stats(id, tx, rx)) == r
    ensures id in r.sessions ==> Relay.Apply(r, Relay.Create(id, a, b, now)) == r
  {
  }
}
