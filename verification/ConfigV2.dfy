/** The peers of a config-v2 document: the plan, with candidates, the chosen endpoint and the relay flag. */
module ConfigV2 {

  import opened Options
  import opened StableSort
  import opened Address
  import opened Endpoints
  import opened Topology
  import Forwarding

  datatype Candidate = Candidate(row: Endpoint, preferred: bool)

  datatype PeerInfo = PeerInfo(
    publicKey: string,
    allowedIps: seq<AllowedIp>,
    endpoint: Option<string>,
    endpointPort: Option<int>,
    persistentKeepalive: Option<int>,
    candidates: seq<Candidate>,
    relayRequired: bool)

  // pk_to_device_id.get(key, ""): of devices with the same key the last one counts.
  function DeviceOfKey(ds: seq<Device>, key: string): string {
    if ds == [] then ""
    else if ds[|ds| - 1].publicKey == key then ds[|ds| - 1].id
    else DeviceOfKey(ds[..|ds| - 1], key)
  }

  function Candidates(sorted: seq<Endpoint>, bestId: string): (r: seq<Candidate>)
    ensures |r| == |sorted|
    ensures forall i | 0 <= i < |r| :: r[i] == Candidate(sorted[i], sorted[i].id == bestId)
  {
    if sorted == [] then []
    else [Candidate(sorted[0], sorted[0].id == bestId)] + Candidates(sorted[1..], bestId)
  }

  /** The endpoint held after the candidate loop: each preferred candidate, or the first when none was planned. */
  function Choose(candidates: seq<Candidate>, ep: Option<string>, port: Option<int>): (Option<string>, Option<int>) {
    if candidates == [] then (ep, port)
    else
      var (e, p) := Choose(candidates[..|candidates| - 1], ep, port);
      var c := candidates[|candidates| - 1];
      if e.None? || c.preferred then (Some(c.row.endpoint), Some(c.row.port)) else (e, p)
  }

  function PeerInfoOf(kind: Kind, net: Network, pp: PeerPlan): PeerInfo {
    var eps := net.EndpointsOf(DeviceOfKey(net.devices, pp.publicKey));
    var candidates := if eps != [] && !kind.Star? then Candidates(SortCandidates(eps), SelectBest(eps).value.id) else [];
    var (ep, port) := Choose(candidates, pp.endpoint, pp.endpointPort);
    PeerInfo(
      pp.publicKey,
      pp.allowedIps,
      Or(NonEmpty(ep), pp.endpoint),
      Or(NonZero(port), pp.endpointPort),
      pp.persistentKeepalive,
      candidates,
      eps == [] && pp.relayFallback && !kind.Star?)
  }

  method AssemblePeer(kind: Kind, net: Network, pp: PeerPlan) returns (peer: PeerInfo)
    ensures peer == PeerInfoOf(kind, net, pp)
  {
    var candidates: seq<Candidate> := [];
    var bestEp, bestPort, relayFallback := pp.endpoint, pp.endpointPort, pp.relayFallback;
    var eps := net.EndpointsOf(DeviceOfKey(net.devices, pp.publicKey));
    if eps != [] && !kind.Star? {
      var sorted := SortCandidates(eps);
      var bestId := SelectBest(eps).value.id;
      ghost var all := Candidates(sorted, bestId);
      for i := 0 to |sorted|
        invariant candidates == all[..i]
        invariant (bestEp, bestPort) == Choose(candidates, pp.endpoint, pp.endpointPort)
      {
        var isPreferred := sorted[i].id == bestId;
        candidates := candidates + [Candidate(sorted[i], isPreferred)];
        assert candidates[..i] == all[..i];
        if bestEp.None? || isPreferred {
          bestEp, bestPort := Some(sorted[i].endpoint), Some(sorted[i].port);
        }
      }
      assert all[..|sorted|] == all;
    }
    if eps != [] {
      relayFallback := false;
    }
    var relayRequired := relayFallback && !kind.Star?;
    peer := PeerInfo(
      pp.publicKey, pp.allowedIps, Or(NonEmpty(bestEp), pp.endpoint), Or(NonZero(bestPort), pp.endpointPort),
      pp.persistentKeepalive, candidates, relayRequired);
  }

  function PeerInfos(kind: Kind, net: Network, plan: seq<PeerPlan>): (r: seq<PeerInfo>)
    ensures |r| == |plan| && forall i | 0 <= i < |r| :: r[i] == PeerInfoOf(kind, net, plan[i])
  {
    hide PeerInfoOf;
    if plan == [] then [] else [PeerInfoOf(kind, net, plan[0])] + PeerInfos(kind, net, plan[1..])
  }

  method BuildPeers(kind: Kind, net: Network, self: Device) returns (peers: seq<PeerInfo>)
    ensures peers == PeerInfos(kind, net, Peers(kind, net, self))
  {
    hide PeerInfoOf; hide Peers;
    var plan: seq<PeerPlan>;
    if kind.Star? {
      plan := GenerateStar(net, self);
    } else {
      plan := GenerateMeshOrHybrid(kind, net, self);
    }
    peers := [];
    for i := 0 to |plan|
      invariant |peers| == i && forall k | 0 <= k < i :: peers[k] == PeerInfoOf(kind, net, plan[k])
    {
      var peer := AssemblePeer(kind, net, plan[i]);
      peers := peers + [peer];
    }
    assert peers == PeerInfos(kind, net, plan);
  }

  ghost predicate DistinctRows(eps: seq<Endpoint>) {
    forall i, j | 0 <= i < j < |eps| :: eps[i].id != eps[j].id
  }

  lemma {:induction false} ChooseHead(candidates: seq<Candidate>, ep: Option<string>, port: Option<int>)
    requires candidates != [] && candidates[0].preferred
    requires forall i | 0 < i < |candidates| :: !candidates[i].preferred
    ensures Choose(candidates, ep, port) == (Some(candidates[0].row.endpoint), Some(candidates[0].row.port))
  {
    if |candidates| > 1 {
      ChooseHead(candidates[..|candidates| - 1], ep, port);
    }
  }

  lemma DistinctAfterSort(eps: seq<Endpoint>)
    requires DistinctRows(eps)
    ensures DistinctRows(SortCandidates(eps))
  {
    RanksBeforeIsOrder();
    SortIsStableSort(eps, RanksBefore);
    DistinctByCount(eps, SortCandidates(eps));
  }

  lemma DistinctByCount(a: seq<Endpoint>, b: seq<Endpoint>)
    requires DistinctRows(a) && multiset(a) == multiset(b)
    ensures DistinctRows(b)
  {
    forall i, j | 0 <= i < j < |b| ensures b[i].id != b[j].id {
      assert b[i] in multiset(a) && b[j] in multiset(a);
      if b[i] == b[j] {
        assert b == b[..i] + [b[i]] + b[i + 1..j] + [b[j]] + b[j + 1..];
        assert multiset(b)[b[i]] >= 2;
        OnceWhenDistinct(a, b[i]);
      }
    }
  }

  lemma {:induction false} OnceWhenDistinct(a: seq<Endpoint>, e: Endpoint)
    requires DistinctRows(a)
    ensures multiset(a)[e] <= 1
  {
    if a != [] {
      assert a == [a[0]] + a[1..];
      OnceWhenDistinct(a[1..], e);
      if a[0] == e {
        assert e !in a[1..];
      }
    }
  }

  /**
   * In mesh and hybrid, a peer whose device has endpoints lists exactly those, best first and ties in their given
   * order; only the head is preferred; and its address and port are the peer's, whatever the planner had picked by
   * priority, unless they are empty or zero.
   */
  lemma ChosenEndpointIsHead(kind: Kind, net: Network, pp: PeerPlan, eps: seq<Endpoint>)
    requires !kind.Star? && eps != [] && DistinctRows(eps)
    requires eps == net.EndpointsOf(DeviceOfKey(net.devices, pp.publicKey))
    ensures var info := PeerInfoOf(kind, net, pp);
      var rows := seq(|info.candidates|, i requires 0 <= i < |info.candidates| => info.candidates[i].row);
      && multiset(rows) == multiset(eps)
      && Sorted(rows, RanksBefore)
      && (forall e :: TiesOf(rows, e, RanksBefore) == TiesOf(eps, e, RanksBefore))
      && |rows| > 0
      && (forall i | 0 <= i < |rows| :: info.candidates[i].preferred <==> i == 0)
      && info.endpoint == (if rows[0].endpoint != "" then Some(rows[0].endpoint) else pp.endpoint)
      && info.endpointPort == (if rows[0].port != 0 then Some(rows[0].port) else pp.endpointPort)
  {
    RanksBeforeIsOrder();
    SortIsStableSort(eps, RanksBefore);
    DistinctAfterSort(eps);
    var sorted := SortCandidates(eps);
    hide Sort;
    var info := PeerInfoOf(kind, net, pp);
    assert seq(|info.candidates|, i requires 0 <= i < |info.candidates| => info.candidates[i].row) == sorted;
    ChooseHead(info.candidates, pp.endpoint, pp.endpointPort);
  }

  // ----- Relay flags

  lemma {:induction false} KeyOfDevice(ds: seq<Device>, d: Device)
    requires DistinctDevices(ds) && d in ds
    ensures DeviceOfKey(ds, d.publicKey) == d.id
  {
    var last := ds[|ds| - 1];
    if last.publicKey != d.publicKey {
      assert d in ds[..|ds| - 1];
      KeyOfDevice(ds[..|ds| - 1], d);
    } else {
      assert last == d;
    }
  }

  /**
   * A mesh peer, or a hybrid peer that is not the hub, requires a relay if and only if it has no endpoint candidate;
   * the hybrid hub never does.
   */
  lemma RelayRequiredIff(kind: Kind, net: Network, self: Device, i: nat)
    requires net.Valid() && self in net.devices && !kind.Star? && i < |net.Others(self.id)|
    ensures var info := PeerInfos(kind, net, Peers(kind, net, self))[i];
      var d := net.Others(self.id)[i];
      && info.publicKey == d.publicKey
      && (info.candidates == [] <==> net.EndpointsOf(d.id) == [])
      && (info.relayRequired <==> info.candidates == [] && !(kind.Hybrid? && d.id == net.serverId))
  {
    ExceptContents(net.devices, self.id);
    var d := net.Others(self.id)[i];
    assert d in net.Others(self.id);
    KeyOfDevice(net.devices, d);
    var plan := Peers(kind, net, self);
    assert plan[i] == PeerFor(kind, net, d);
    var eps := net.EndpointsOf(d.id);
    hide Peers; hide SortCandidates; hide DistinctDevices; hide DeviceOfKey; hide Except; hide Choose;
    assert |Candidates(SortCandidates(eps), "")| == |eps|;
  }

  /** A mesh or hybrid peer without endpoint rows is served at the configured endpoint if it is the hub, at none else. */
  lemma EndpointWithoutRows(kind: Kind, net: Network, self: Device, i: nat)
    requires net.Valid() && self in net.devices && !kind.Star? && i < |net.Others(self.id)|
    requires net.EndpointsOf(net.Others(self.id)[i].id) == []
    ensures var info := PeerInfos(kind, net, Peers(kind, net, self))[i];
      var isHub := net.Others(self.id)[i].id == net.serverId;
      && info.endpoint == (if isHub then Some(net.serverEndpoint) else None)
      && info.endpointPort == (if isHub then Some(net.serverPort) else None)
  {
    ExceptContents(net.devices, self.id);
    var d := net.Others(self.id)[i];
    assert d in net.Others(self.id);
    KeyOfDevice(net.devices, d);
    assert Peers(kind, net, self)[i] == PeerFor(kind, net, d);
    WithoutRows(kind, net, d);
    hide PeerInfoOf; hide Peers; hide PeerFor; hide DistinctDevices; hide DeviceOfKey; hide Except;
  }

  lemma WithoutRows(kind: Kind, net: Network, d: Device)
    requires !kind.Star? && net.EndpointsOf(d.id) == [] && DeviceOfKey(net.devices, d.publicKey) == d.id
    ensures var info := PeerInfoOf(kind, net, PeerFor(kind, net, d));
      && info.endpoint == (if d.id == net.serverId then Some(net.serverEndpoint) else None)
      && info.endpointPort == (if d.id == net.serverId then Some(net.serverPort) else None)
  {
    hide SortCandidates; hide DeviceOfKey; hide HostRoutes;
  }

  // The index of the served peer that a packet for ip is sent to, as Forwarding.Winner is of the planned one.
  function ServedWinner(infos: seq<PeerInfo>, ip: Ip): int {
    Forwarding.LastMax(seq(|infos|, k requires 0 <= k < |infos| => Forwarding.MatchLen(infos[k].allowedIps, ip)))
  }

  /**
   * The served peers are the planned ones and forward every packet as the plan does, so that the delivery theorems
   * hold of them; a peer without candidates keeps its planned endpoint.
   */
  lemma ServedAsPlanned(kind: Kind, net: Network, self: Device, ip: Ip)
    ensures var plan := Peers(kind, net, self);
      var infos := PeerInfos(kind, net, plan);
      && ServedWinner(infos, ip) == Forwarding.Winner(plan, ip)
      && |infos| == |plan|
      && forall k | 0 <= k < |plan| ::
        && infos[k].publicKey == plan[k].publicKey && infos[k].persistentKeepalive == plan[k].persistentKeepalive
        && (infos[k].candidates == [] ==>
              infos[k].endpoint == plan[k].endpoint && infos[k].endpointPort == plan[k].endpointPort)
  {
    var plan := Peers(kind, net, self);
    var infos := PeerInfos(kind, net, plan);
    hide Peers; hide SortCandidates; hide SelectBest; hide DeviceOfKey;
    var lens := seq(|infos|, k requires 0 <= k < |infos| => Forwarding.MatchLen(infos[k].allowedIps, ip));
    assert lens == Forwarding.Lens(plan, ip);
  }

  /** No star peer requires a relay. */
  lemma StarNeverRequiresRelay(net: Network, self: Device)
    ensures forall p | p in PeerInfos(Star, net, Peers(Star, net, self)) :: !p.relayRequired && p.candidates == []
  {
    var infos := PeerInfos(Star, net, Peers(Star, net, self));
    forall p | p in infos ensures !p.relayRequired && p.candidates == [] {
      var i :| 0 <= i < |infos| && infos[i] == p;
    }
  }
}
