/** From a validated hole punch to the configuration that its peers receive. */
module PathPromotion {

  import opened Options
  import opened StableSort
  import opened Endpoints
  import opened Topology
  import opened ConfigV2
  import EndpointRows
  import NatSessions

  // The network's endpoint lists hold the device's active rows, in any order.
  ghost predicate ListsActiveRows(net: Network, rows: EndpointRows.Rows, deviceId: string) {
    multiset(net.EndpointsOf(deviceId)) == multiset(EndpointRows.ActiveRows(rows, deviceId))
  }

  lemma {:induction false} NoActiveRow(rows: EndpointRows.Rows, deviceId: string)
    requires forall i | 0 <= i < |rows| :: !(rows[i].deviceId == deviceId && rows[i].isActive)
    ensures EndpointRows.ActiveRows(rows, deviceId) == []
  {
    if rows != [] {
      NoActiveRow(rows[1..], deviceId);
    }
  }

  lemma {:induction false} OneActiveRow(rows: EndpointRows.Rows, deviceId: string, id: string)
    requires forall i, j | 0 <= i < j < |rows| :: rows[i].id != rows[j].id
    requires forall i | 0 <= i < |rows| && rows[i].deviceId == deviceId && rows[i].isActive :: rows[i].id == id
    ensures |EndpointRows.ActiveRows(rows, deviceId)| <= 1
  {
    if rows != [] {
      if rows[0].deviceId == deviceId && rows[0].isActive {
        NoActiveRow(rows[1..], deviceId);
      } else {
        OneActiveRow(rows[1..], deviceId, id);
      }
    }
  }

  lemma Single(a: seq<Endpoint>, b: seq<Endpoint>, e: Endpoint)
    requires multiset(a) == multiset(b) && |b| <= 1 && e in b
    ensures a == [e]
  {
    assert b == [e];
    assert |multiset(a)| == |a| && |multiset(b)| == |b|;
    assert a[0] in multiset(a);
  }

  /**
   * When connectivity to an endpoint of the target is validated and its promotion makes it the preferred one, every
   * mesh or hybrid configuration built from the new rows offers the target at exactly that endpoint and port, as the
   * only candidate, and asks for no relay; no other device's rows have changed, and the session is connected.
   */
  lemma ValidatedPathIsServed(
    w: NatSessions.World, id: NatSessions.Id, endpoint: string, port: int, latencyMs: Option<int>,
    kind: Kind, net: Network, pp: PeerPlan)
    requires EndpointRows.Good(w.rows) && id in w.sessions && endpoint != "" && port != 0 && !kind.Star?
    requires var o := EndpointRows.ApplyPromote(w.rows, w.sessions[id].target, endpoint, port, latencyMs).1;
      o.Done? && o.preferred
    requires ListsActiveRows(
      net, NatSessions.Apply(w, NatSessions.Validate(id, endpoint, port, true, latencyMs)).rows, w.sessions[id].target)
    requires DeviceOfKey(net.devices, pp.publicKey) == w.sessions[id].target
    ensures var w' := NatSessions.Apply(w, NatSessions.Validate(id, endpoint, port, true, latencyMs));
      var info := PeerInfoOf(kind, net, pp);
      && w'.sessions[id].state == NatSessions.Connected && w'.sessions[id].established
      && info.endpoint == Some(endpoint) && info.endpointPort == Some(port)
      && |info.candidates| == 1 && info.candidates[0].preferred && !info.relayRequired
      && |w'.rows| == |w.rows|
      && forall i | 0 <= i < |w.rows| && w.rows[i].deviceId != w.sessions[id].target :: w'.rows[i] == w.rows[i]
  {
    var s := w.sessions[id];
    ValidateStep(w, id, endpoint, port, latencyMs);
    hide EndpointRows.ApplyPromote; hide EndpointRows.Good; hide PeerInfoOf; hide EndpointRows.ActiveRows;
    hide NatSessions.Apply;
    EndpointRows.PromotionIsExclusive(w.rows, s.target, endpoint, port, latencyMs);
    var e := OnlyActiveAfter(w.rows, s.target, endpoint, port, latencyMs);
    var rows := EndpointRows.ApplyPromote(w.rows, s.target, endpoint, port, latencyMs).0;
    Single(net.EndpointsOf(s.target), EndpointRows.ActiveRows(rows, s.target), e);
    ServedAlone(kind, net, pp, e);
  }

  lemma ValidateStep(w: NatSessions.World, id: NatSessions.Id, endpoint: string, port: int, latencyMs: Option<int>)
    requires id in w.sessions
    requires EndpointRows.ApplyPromote(w.rows, w.sessions[id].target, endpoint, port, latencyMs).1.Done?
    ensures var w' := NatSessions.Apply(w, NatSessions.Validate(id, endpoint, port, true, latencyMs));
      && id in w'.sessions && w'.sessions[id].state == NatSessions.Connected && w'.sessions[id].established
      && w'.rows == EndpointRows.ApplyPromote(w.rows, w.sessions[id].target, endpoint, port, latencyMs).0
  {
    hide EndpointRows.ApplyPromote;
  }

  /** After a promotion that answers preferred, the device's active rows are the promoted one alone. */
  lemma OnlyActiveAfter(rows: EndpointRows.Rows, target: string, endpoint: string, port: int, latencyMs: Option<int>)
    returns (e: Endpoint)
    requires EndpointRows.Good(rows)
    requires var o := EndpointRows.ApplyPromote(rows, target, endpoint, port, latencyMs).1; o.Done? && o.preferred
    ensures var active := EndpointRows.ActiveRows(EndpointRows.ApplyPromote(rows, target, endpoint, port, latencyMs).0, target);
      |active| <= 1 && e in active && e.endpoint == endpoint && e.port == port
  {
    EndpointRows.PromotionIsExclusive(rows, target, endpoint, port, latencyMs);
    EndpointRows.PromoteKeepsGood(rows, target, endpoint, port, latencyMs);
    var k := PromotedRow(rows, target, endpoint, port, latencyMs);
    hide EndpointRows.ApplyPromote; hide EndpointRows.ActiveRows;
    var (rows', o) := EndpointRows.ApplyPromote(rows, target, endpoint, port, latencyMs);
    OneActiveRow(rows', target, o.id);
    EndpointRows.ActiveRowsAre(rows', target);
    e := rows'[k];
  }

  lemma PromotedRow(rows: EndpointRows.Rows, target: string, endpoint: string, port: int, latencyMs: Option<int>)
    returns (k: nat)
    requires EndpointRows.ApplyPromote(rows, target, endpoint, port, latencyMs).1.Done?
    ensures var (rows', o) := EndpointRows.ApplyPromote(rows, target, endpoint, port, latencyMs);
      && k < |rows'| && rows'[k].id == o.id && rows'[k].deviceId == target && rows'[k].isActive
      && rows'[k].endpoint == endpoint && rows'[k].port == port
  {
    hide EndpointRows.CountRows; hide EndpointRows.ActiveRows; hide EndpointRows.IsPreferred; hide Score;
    k := EndpointRows.FirstRow(rows, EndpointRows.PromotableRows(target, endpoint, port));
  }

  lemma ServedAlone(kind: Kind, net: Network, pp: PeerPlan, e: Endpoint)
    requires !kind.Star? && e.endpoint != "" && e.port != 0
    requires net.EndpointsOf(DeviceOfKey(net.devices, pp.publicKey)) == [e]
    ensures var info := PeerInfoOf(kind, net, pp);
      && info.endpoint == Some(e.endpoint) && info.endpointPort == Some(e.port)
      && |info.candidates| == 1 && info.candidates[0] == Candidate(e, true) && !info.relayRequired
  {
    ChosenEndpointIsHead(kind, net, pp, [e]);
    var info := PeerInfoOf(kind, net, pp);
    RanksBeforeIsOrder();
    SortIsStableSort([e], RanksBefore);
    var sorted := SortCandidates([e]);
    assert sorted[0] in multiset([e]);
    hide Sort;
  }
}
