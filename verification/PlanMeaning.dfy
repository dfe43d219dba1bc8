/** Plans and served peers in literal terms: every field of every peer, for hub, client, mesh and hybrid. */
module PlanMeaning {

  import opened Options
  import opened StableSort
  import opened Address
  import opened Endpoints
  import opened EndpointMeaning
  import opened Topology
  import opened Forwarding
  import opened ConfigV2

  // The addresses sent to a device: its own, then the routes that it advertises.
  function AddressesOf(net: Network, d: Device): seq<AllowedIp> {
    [V4(RawPrefix(d.ip, 32))] + if d.id in net.routes then net.routes[d.id] else []
  }

  function RowsOf(net: Network, d: Device): seq<Endpoint> {
    if d.id in net.endpoints then net.endpoints[d.id] else []
  }

  /** A device is found by its id, the first one that has it. */
  lemma {:induction false} FoundIs(ds: seq<Device>, id: string)
    ensures FindDevice(ds, id) == None <==> forall d | d in ds :: d.id != id
    ensures forall i | 0 <= i < |ds| && ds[i].id == id && (forall j | 0 <= j < i :: ds[j].id != id) ::
      FindDevice(ds, id) == Some(ds[i])
  {
    if ds != [] && ds[0].id != id {
      FoundIs(ds[1..], id);
      assert forall i | 0 < i < |ds| :: ds[i] == ds[1..][i - 1];
    }
  }

  /** The others are all devices with another id, in order. */
  lemma {:induction false} OthersOf(ds: seq<Device>, d: Device, id: string)
    ensures Except([], id) == [] && Except(ds + [d], id) == Except(ds, id) + if d.id == id then [] else [d]
  {
    if ds == [] {
      assert ([] + [d])[1..] == [];
    } else {
      OthersOf(ds[1..], d, id);
      assert (ds + [d])[1..] == ds[1..] + [d];
    }
  }

  // ----- Star

  /** A client's first peer is the hub, at the configured endpoint, for the whole subnet. */
  lemma StarClientIs(net: Network, server: Device, client: Device)
    requires net.Find(net.serverId) == Some(server) && client.id != net.serverId
    ensures var infos := PeerInfos(Star, net, Peers(Star, net, client));
      && 1 <= |infos| <= 2
      && var p := infos[0];
         && p.publicKey == server.publicKey && p.allowedIps == [V4(net.subnet)]
         && p.endpoint == Some(net.serverEndpoint) && p.endpointPort == Some(net.serverPort)
         && p.persistentKeepalive == Some(25) && p.candidates == [] && !p.relayRequired
    ensures !Peers(Star, net, client)[0].relayFallback
  {
    hide ExitPeer; hide DeviceOfKey; hide SortCandidates;
  }

  /** Its second peer, if it has one, is its exit node, for all addresses, without endpoint. */
  lemma StarExitIs(net: Network, server: Device, client: Device)
    requires net.Find(net.serverId) == Some(server) && client.id != net.serverId
    ensures var infos := PeerInfos(Star, net, Peers(Star, net, client));
      && (|infos| == 2 <==>
            && client.exitNodeId.Some? && client.exitNodeId.value != "" && client.exitNodeId.value != net.serverId
            && net.Find(client.exitNodeId.value).Some? && net.Find(client.exitNodeId.value).value.publicKey != ""
            && net.Find(client.exitNodeId.value).value.publicKey != server.publicKey)
      && (|infos| == 2 ==>
            var p := infos[1];
            && p.publicKey == net.Find(client.exitNodeId.value).value.publicKey
            && p.allowedIps == [V4(RawPrefix(0, 0)), Other("::/0")]
            && p.endpoint == None && p.endpointPort == None && p.persistentKeepalive == None
            && p.candidates == [] && !p.relayRequired && !Peers(Star, net, client)[1].relayFallback)
  {
    hide DeviceOfKey; hide SortCandidates;
    var first := [ServerPeer(net, server)];
    assert first[0] in first;
    var exit := ExitPeer(net, client, first);
    assert Peers(Star, net, client) == first + exit;
  }

  /** The hub has one peer for each client, with its addresses and no endpoint; without a hub nobody has a peer. */
  lemma StarHubIs(net: Network, server: Device)
    requires net.Find(net.serverId) == Some(server)
    ensures var infos, clients := PeerInfos(Star, net, Peers(Star, net, server)), net.Others(net.serverId);
      && |infos| == |clients|
      && forall i | 0 <= i < |clients| ::
           var p := infos[i];
           && p.publicKey == clients[i].publicKey && p.allowedIps == AddressesOf(net, clients[i])
           && p.endpoint == None && p.endpointPort == None && p.persistentKeepalive == None
           && p.candidates == [] && !p.relayRequired && !Peers(Star, net, server)[i].relayFallback
  {
    hide DeviceOfKey; hide SortCandidates; hide Except;
  }

  lemma NoHubNoPeers(net: Network, self: Device)
    requires forall d | d in net.devices :: d.id != net.serverId
    ensures Peers(Star, net, self) == []
  {
  }

  // ----- Mesh and hybrid

  /** Where a device is planned to be reached: at the active endpoint that the planner picks, if there is one. */
  ghost predicate IsPicked(rows: seq<Endpoint>, k: nat) {
    && k < |rows| && rows[k].isActive
    && forall j | 0 <= j < |rows| && rows[j].isActive ::
         PlansAsGood(rows[k], rows[j]) && (j < k ==> !PlansAsGood(rows[j], rows[k]))
  }

  lemma PickedIs(rows: seq<Endpoint>, k: nat)
    requires IsPicked(rows, k)
    ensures BestPlanned(rows) == (Some(rows[k].endpoint), Some(rows[k].port))
  {
    assert rows[k] in rows;
    var m := PlannedInFields(rows);
    hide PlansAsGood; hide BestPlanned;
    assert !(m < k) && !(k < m);
  }

  lemma NonePicked(rows: seq<Endpoint>)
    requires forall e | e in rows :: !e.isActive
    ensures BestPlanned(rows) == (None, None)
  {
    BestPlannedIsBest(rows);
  }

  /** A mesh peer: its addresses, keepalive 25, and the relay flag exactly when it has no rows. */
  lemma MeshPeerIs(net: Network, self: Device, i: nat)
    requires i < |net.Others(self.id)|
    ensures var d, p := net.Others(self.id)[i], Peers(Mesh, net, self)[i];
      && p.publicKey == d.publicKey && p.allowedIps == AddressesOf(net, d) && p.persistentKeepalive == Some(25)
      && (p.relayFallback <==> RowsOf(net, d) == [])
  {
    hide ExitPeer; hide BestPlanned; hide Except;
  }

  /** Its endpoint is the picked one, for the hub the configured one when none is picked, and none otherwise. */
  lemma MeshEndpointIs(net: Network, self: Device, i: nat, k: nat)
    requires i < |net.Others(self.id)|
    ensures var d, p := net.Others(self.id)[i], Peers(Mesh, net, self)[i];
      var hub := d.id == net.serverId;
      && (IsPicked(RowsOf(net, d), k) ==>
            var e := RowsOf(net, d)[k];
            && p.endpoint == (if e.endpoint != "" then Some(e.endpoint) else if hub then Some(net.serverEndpoint) else None)
            && p.endpointPort == (if e.port != 0 then Some(e.port) else if hub then Some(net.serverPort) else None))
      && ((forall e | e in RowsOf(net, d) :: !e.isActive) ==>
            && p.endpoint == (if hub then Some(net.serverEndpoint) else None)
            && p.endpointPort == (if hub then Some(net.serverPort) else None))
  {
    var d := net.Others(self.id)[i];
    if IsPicked(RowsOf(net, d), k) { PickedIs(RowsOf(net, d), k); }
    if forall e | e in RowsOf(net, d) :: !e.isActive { NonePicked(RowsOf(net, d)); }
    hide ExitPeer; hide BestPlanned; hide Except; hide IsPicked;
  }

  /** The hybrid hub: the whole subnet, at the picked endpoint or the configured one, and never by relay. */
  lemma HybridHubIs(net: Network, self: Device, i: nat, k: nat)
    requires i < |net.Others(self.id)| && net.Others(self.id)[i].id == net.serverId
    ensures var d, p := net.Others(self.id)[i], Peers(Hybrid, net, self)[i];
      && p.publicKey == d.publicKey && p.allowedIps == [V4(net.subnet)] && p.persistentKeepalive == Some(25) && !p.relayFallback
      && (IsPicked(RowsOf(net, d), k) ==>
            var e := RowsOf(net, d)[k];
            && p.endpoint == (if e.endpoint != "" then Some(e.endpoint) else Some(net.serverEndpoint))
            && p.endpointPort == (if e.port != 0 then Some(e.port) else Some(net.serverPort)))
      && ((forall e | e in RowsOf(net, d) :: !e.isActive) ==>
            p.endpoint == Some(net.serverEndpoint) && p.endpointPort == Some(net.serverPort))
  {
    var d := net.Others(self.id)[i];
    if IsPicked(RowsOf(net, d), k) { PickedIs(RowsOf(net, d), k); }
    if forall e | e in RowsOf(net, d) :: !e.isActive { NonePicked(RowsOf(net, d)); }
    hide ExitPeer; hide BestPlanned; hide Except; hide IsPicked;
  }

  /** Any other hybrid peer: direct with keepalive 25 when an endpoint with a text is picked, by relay otherwise. */
  lemma HybridPeerIs(net: Network, self: Device, i: nat, k: nat)
    requires i < |net.Others(self.id)| && net.Others(self.id)[i].id != net.serverId
    ensures var d, p := net.Others(self.id)[i], Peers(Hybrid, net, self)[i];
      && p.publicKey == d.publicKey && p.allowedIps == AddressesOf(net, d)
      && (IsPicked(RowsOf(net, d), k) && RowsOf(net, d)[k].endpoint != "" ==>
            var e := RowsOf(net, d)[k];
            && p.endpoint == Some(e.endpoint) && p.endpointPort == Some(e.port)
            && p.persistentKeepalive == Some(25) && !p.relayFallback)
      && ((IsPicked(RowsOf(net, d), k) && RowsOf(net, d)[k].endpoint == "") || (forall e | e in RowsOf(net, d) :: !e.isActive) ==>
            p.endpoint == None && p.endpointPort == None && p.persistentKeepalive == None && p.relayFallback)
  {
    var d := net.Others(self.id)[i];
    if IsPicked(RowsOf(net, d), k) { PickedIs(RowsOf(net, d), k); }
    if forall e | e in RowsOf(net, d) :: !e.isActive { NonePicked(RowsOf(net, d)); }
    hide ExitPeer; hide BestPlanned; hide Except; hide IsPicked;
  }

  /** A device that is its own exit node gets itself as last peer, for all addresses, without endpoint. */
  lemma OwnExitIs(kind: Kind, net: Network, self: Device)
    requires net.Valid() && self in net.devices && !kind.Star?
    ensures var plan, n := Peers(kind, net, self), |net.Others(self.id)|;
      && (|plan| == n + 1 <==>
            self.exitNodeId == Some(self.id) && self.id != "" && self.id != net.serverId && self.publicKey != "")
      && (|plan| != n + 1 ==> |plan| == n)
      && (|plan| == n + 1 ==>
            plan[n] == PeerPlan(self.publicKey, [V4(RawPrefix(0, 0)), Other("::/0")], None, None, None, false))
  {
    ExitPeerOnlyForSelf(kind, net, self);
    hide PeerFor; hide Except;
    var direct := PeersFor(kind, net, net.Others(self.id));
    assert Peers(kind, net, self) == direct + ExitPeer(net, self, direct);
  }

  // ----- Served peers

  /**
   * The served candidates of a mesh or hybrid peer whose device has endpoint rows: the rows, each as good as those that
   * follow; the first is preferred, it alone, and it gives endpoint and port.
   */
  lemma ServedCandidatesAre(kind: Kind, net: Network, pp: PeerPlan, eps: seq<Endpoint>)
    requires !kind.Star? && eps != [] && DistinctRows(eps)
    requires eps == net.EndpointsOf(DeviceOfKey(net.devices, pp.publicKey))
    ensures var info := PeerInfoOf(kind, net, pp);
      && |info.candidates| == |eps| > 0
      && (forall e | e in eps :: exists i | 0 <= i < |eps| :: info.candidates[i].row == e)
      && (forall i, j | 0 <= i < j < |eps| :: AsGood(info.candidates[i].row, info.candidates[j].row))
      && (forall i | 0 <= i < |eps| :: info.candidates[i].preferred <==> i == 0)
      && (info.candidates[0].row.endpoint != "" ==> info.endpoint == Some(info.candidates[0].row.endpoint))
      && (info.candidates[0].row.port != 0 ==> info.endpointPort == Some(info.candidates[0].row.port))
      && info.publicKey == pp.publicKey && info.allowedIps == pp.allowedIps
      && info.persistentKeepalive == pp.persistentKeepalive && !info.relayRequired
  {
    ChosenEndpointIsHead(kind, net, pp, eps);
    var info := PeerInfoOf(kind, net, pp);
    var rows := seq(|info.candidates|, i requires 0 <= i < |info.candidates| => info.candidates[i].row);
    ServedRest(kind, net, pp, eps);
    hide PeerInfoOf; hide AsGood; hide RanksBefore; hide DeviceOfKey;
    assert |multiset(rows)| == |multiset(eps)|;
    forall e | e in eps ensures exists i | 0 <= i < |eps| :: info.candidates[i].row == e {
      assert e in multiset(rows);
      var i :| 0 <= i < |rows| && rows[i] == e;
      assert info.candidates[i].row == e;
    }
    forall i, j | 0 <= i < j < |eps| ensures AsGood(info.candidates[i].row, info.candidates[j].row) {
      assert !RanksBefore(rows[j], rows[i]);
      OrderIs(rows[i], rows[j]);
    }
  }

  lemma ServedRest(kind: Kind, net: Network, pp: PeerPlan, eps: seq<Endpoint>)
    requires eps != [] && eps == net.EndpointsOf(DeviceOfKey(net.devices, pp.publicKey))
    ensures var info := PeerInfoOf(kind, net, pp);
      && info.publicKey == pp.publicKey && info.allowedIps == pp.allowedIps
      && info.persistentKeepalive == pp.persistentKeepalive && !info.relayRequired
  {
    hide SortCandidates; hide Choose; hide DeviceOfKey;
  }

  /** A peer without rows is served as planned, with a relay if the plan wants one and the network is no star. */
  lemma ServedWithoutRows(kind: Kind, net: Network, pp: PeerPlan)
    requires net.EndpointsOf(DeviceOfKey(net.devices, pp.publicKey)) == []
    ensures PeerInfoOf(kind, net, pp) == PeerInfo(
      pp.publicKey, pp.allowedIps, pp.endpoint, pp.endpointPort, pp.persistentKeepalive, [], pp.relayFallback && kind != Star)
  {
    hide DeviceOfKey;
  }

  /** A key stands for the last device that has it, and for no device when none has. */
  lemma {:induction false} KeyStandsFor(ds: seq<Device>, key: string)
    ensures (forall d | d in ds :: d.publicKey != key) ==> DeviceOfKey(ds, key) == ""
    ensures forall i | 0 <= i < |ds| && ds[i].publicKey == key && (forall j | i < j < |ds| :: ds[j].publicKey != key) ::
      DeviceOfKey(ds, key) == ds[i].id
  {
    if ds != [] && ds[|ds| - 1].publicKey != key {
      KeyStandsFor(ds[..|ds| - 1], key);
    }
  }
}
