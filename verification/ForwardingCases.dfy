/** Where packets go when they are not delivered directly: stolen by a route, out through an exit node, or to the hub. */
module ForwardingCases {

  import opened Options
  import opened Address
  import opened Endpoints
  import opened Topology
  import opened Forwarding
  import ConfigV2

  // ----- Stolen packets

  // A peer that is no destination gets the packet that the hub should send to its i-th client.
  lemma StolenAtHub(net: Network, server: Device, i: nat) returns (thief: Device)
    requires net.Valid() && net.Find(net.serverId) == Some(server)
    requires i < |net.Others(net.serverId)| && !HubUnstolen(net, i)
    ensures thief in net.devices && thief != server && thief != net.Others(net.serverId)[i]
    ensures NextHop(Peers(Star, net, server), net.Others(net.serverId)[i].ip) == Some(thief.publicKey)
  {
    var clients, peers := net.Others(net.serverId), Peers(Star, net, server);
    var ip := clients[i].ip;
    HubWinnerIff(net, server, i);
    HubLens(net, server, i);
    OthersAre(net, net.serverId);
    LastMaxDominates(Lens(peers, ip));
    hide Peers; hide HubUnstolen; hide LastMax; hide Except; hide MatchLen; hide RouteLen;
    assert Lens(peers, ip)[i] == 32;
    var w := Winner(peers, ip);
    thief := clients[w];
    assert w != i;
  }

  /**
   * In star a stolen packet never arrives: the hub hands it to a client that sends it back to the hub. So a star packet
   * between clients takes two hops or is lost.
   */
  lemma {:induction false} StolenIsLost(net: Network, server: Device, i: nat, limit: nat)
    requires net.Valid() && net.Find(net.serverId) == Some(server) && net.subnet.len > 0
    requires i < |net.Others(net.serverId)| && !HubUnstolen(net, i)
    ensures Hops(Star, net, server, net.Others(net.serverId)[i], limit) == None
    ensures forall client | client in net.devices && client != net.Others(net.serverId)[i] ::
      Hops(Star, net, client, net.Others(net.serverId)[i], limit) == None
    decreases limit
  {
    hide Hops; hide Peers; hide HubUnstolen; hide Except; hide Network.Valid;
    var dst := net.Others(net.serverId)[i];
    ServerIsNone(net, server);
    if limit == 0 {
      NoHops(Star, net, dst);
    } else {
      StolenIsLost(net, server, i, limit - 1);
      var thief := StolenAtHub(net, server, i);
      HopOn(Star, net, server, thief, dst, limit);
      OthersAre(net, net.serverId);
      forall client | client in net.devices && client != dst
        ensures Hops(Star, net, client, dst, limit) == None
      {
        if client != server {
          ClientSendsToHub(net, server, client, dst.ip);
          HopOn(Star, net, client, server, dst, limit);
        }
      }
    }
  }

  lemma ServerIsNone(net: Network, server: Device)
    requires net.Valid() && net.Find(net.serverId) == Some(server)
    ensures server in net.devices && server !in net.Others(net.serverId)
  {
    OthersAre(net, net.serverId);
  }

  lemma NoHops(kind: Kind, net: Network, dst: Device)
    ensures forall d: Device | d != dst :: Hops(kind, net, d, dst, 0) == None
  {
  }

  // A packet that goes from a to b takes one hop more than from b.
  lemma HopOn(kind: Kind, net: Network, a: Device, b: Device, dst: Device, limit: nat)
    requires net.Valid() && b in net.devices && a != dst && limit > 0
    requires NextHop(Peers(kind, net, a), dst.ip) == Some(b.publicKey)
    ensures Hops(kind, net, a, dst, limit) ==
      match Hops(kind, net, b, dst, limit - 1)
      case None => None
      case Some(n) => Some(n + 1)
  {
    hide Peers; hide NextHop; hide Holder; hide Network.Valid;
    HolderUnique(net, b);
  }

  // A network of three in 10.0.0.0/24, whose last device advertises one route.
  const SUBNET: Prefix := RawPrefix(0x0A00_0000, 24)
  const HUB := Device("hub", "hub's key", 0x0A00_0001, None)
  const ALICE := Device("alice", "alice's key", 0x0A00_0002, None)
  const BERNARD := Device("bernard", "bernard's key", 0x0A00_0003, None)

  function NetworkWith(route: Prefix): Network {
    Network(SUBNET, [HUB, ALICE, BERNARD], "hub", "hub.example", 51820, map["bernard" := [V4(route)]], map[])
  }

  lemma NetworkIsValid(route: Prefix)
    ensures NetworkWith(route).Valid() && NetworkWith(route).Find("hub") == Some(HUB)
    ensures NetworkWith(route).serverId == "hub" && NetworkWith(route).subnet == SUBNET
    ensures NetworkWith(route).Others("hub") == [ALICE, BERNARD] && NetworkWith(route).Others("alice") == [HUB, BERNARD]
  {
    Pow2Of32();
    assert |HUB.id| == 3 && |ALICE.id| == 5 && |BERNARD.id| == 7;
    assert |HUB.publicKey| == 9 && |ALICE.publicKey| == 11 && |BERNARD.publicKey| == 13;
    ExceptFirst(HUB, [ALICE, BERNARD], "hub");
    ExceptFirst(HUB, [ALICE, BERNARD], "alice");
    ExceptFirst(ALICE, [BERNARD], "hub");
    ExceptFirst(ALICE, [BERNARD], "alice");
    ExceptFirst(BERNARD, [], "hub");
    ExceptFirst(BERNARD, [], "alice");
    hide Except;
    assert [HUB, ALICE, BERNARD] == [HUB] + [ALICE, BERNARD] && [ALICE, BERNARD] == [ALICE] + [BERNARD];
    assert [BERNARD] == [BERNARD] + [];
  }

  lemma ExceptFirst(d: Device, rest: seq<Device>, id: string)
    ensures Except([d] + rest, id) == (if d.id == id then [] else [d]) + Except(rest, id)
    ensures Except([], id) == []
  {
    assert ([d] + rest)[1..] == rest;
  }

  lemma OneRouteLen(route: Prefix, ip: Ip)
    ensures RouteLen(NetworkWith(route), BERNARD, ip) == if Contains(route, ip) then route.len else -1
  {
    assert [V4(route)][1..] == [];
    assert MatchLen([], ip) == -1;
  }

  // Of two other devices the last takes the first one's packets when its route is long enough.
  lemma LastOfTwoSteals(kind: Kind, net: Network, self: Device, a: Device, b: Device)
    requires net.Valid() && self in net.devices && !kind.Star? && net.subnet.len > 0 && net.Others(self.id) == [a, b]
    requires !(kind.Hybrid? && b.id == net.serverId)
    requires RouteLen(net, b, a.ip) >= if kind.Hybrid? && a.id == net.serverId then net.subnet.len else 32
    ensures NextHop(Peers(kind, net, self), a.ip) == Some(b.publicKey)
  {
    hide Network.Valid; hide RouteLen; hide Except; hide Peers; hide MatchLen; hide Winner; hide OwnExit;
    var peers, others := Peers(kind, net, self), net.Others(self.id);
    assert others[0] == a && others[1] == b;
    PlannedLens(kind, net, self, 0);
    KeysOfPlan(kind, net, self, 1);
    WinnerDominates(peers, a.ip, 1);
    assert Lens(peers, a.ip)[1] == RouteLen(net, b, a.ip);
  }

  /**
   * A device that advertises another's address as a /32 route takes its packets: in mesh the hub's packets for alice go
   * to bernard, and in star no packet for alice ever arrives.
   */
  lemma HostRouteSteals(limit: nat)
    ensures var net := NetworkWith(HostPrefix(ALICE.ip));
      && NextHop(Peers(Mesh, net, HUB), ALICE.ip) == Some(BERNARD.publicKey)
      && Hops(Star, net, HUB, ALICE, limit) == None
  {
    var net := NetworkWith(HostPrefix(ALICE.ip));
    NetworkIsValid(HostPrefix(ALICE.ip));
    HostContainsOnly(ALICE.ip, ALICE.ip);
    OneRouteLen(HostPrefix(ALICE.ip), ALICE.ip);
    hide NetworkWith; hide Network.Valid; hide RouteLen; hide Except; hide Peers;
    assert [ALICE, BERNARD][0] == ALICE && [ALICE, BERNARD][1] == BERNARD;
    LastOfTwoSteals(Mesh, net, HUB, ALICE, BERNARD);
    assert !HubUnstolen(net, 0);
    StolenIsLost(net, HUB, 0, limit);
  }

  /** A device that advertises a longer prefix than the subnet takes a hybrid packet for the hub. */
  lemma LongRouteStealsHub()
    ensures var net := NetworkWith(RawPrefix(0x0A00_0000, 25));
      NextHop(Peers(Hybrid, net, ALICE), HUB.ip) == Some(BERNARD.publicKey)
  {
    var route: Prefix := RawPrefix(0x0A00_0000, 25);
    var net := NetworkWith(route);
    NetworkIsValid(route);
    HubInRoute();
    OneRouteLen(route, HUB.ip);
    hide NetworkWith; hide Network.Valid; hide RouteLen; hide Except; hide Peers;
    LastOfTwoSteals(Hybrid, net, ALICE, HUB, BERNARD);
  }

  lemma HubInRoute()
    ensures Contains(RawPrefix(0x0A00_0000, 25), HUB.ip)
  {
    Pow2Of32();
    hide Pow2;
    assert Size(RawPrefix(0x0A00_0000, 25)) == Pow2(7);
    Pow2Adds(7, 1);
    PowOfOne();
  }

  lemma PowOfOne()
    ensures Pow2(1) == 2
  {
  }

  // ----- Addresses outside the subnet

  /** The exit node that a star client gets a peer for: one that is set, known and not the hub, and has a key. */
  function StarExit(net: Network, client: Device): Option<Device> {
    var exit := NonEmpty(client.exitNodeId);
    if exit.None? || exit.value == net.serverId then None
    else
      var d := net.Find(exit.value);
      if d.Some? && d.value.publicKey != "" then d else None
  }

  /** A star client sends what is for outside the subnet to its exit node, and nowhere when it has none. */
  lemma StarExitHop(net: Network, server: Device, client: Device, ip: Ip)
    requires net.Valid() && net.Find(net.serverId) == Some(server)
    requires client in net.devices && client != server && !Contains(net.subnet, ip)
    ensures NextHop(Peers(Star, net, client), ip) ==
      if StarExit(net, client).Some? then Some(StarExit(net, client).value.publicKey) else None
  {
    assert client.id != net.serverId by { SameId(net, client, server); }
    var first := [ServerPeer(net, server)];
    var exit := ExitPeer(net, client, first);
    var peers := Peers(Star, net, client);
    assert peers == first + exit;
    StarExitPeer(net, server, client);
    ExitLen(ip);
    OutsideSubnet(net, ip);
    LastMaxDominates(Lens(peers, ip));
    hide MatchLen; hide ExitPeer; hide StarExit; hide Peers; hide LastMax; hide Network.Valid;
    assert Lens(peers, ip)[0] == -1;
    assert exit != [] ==> Lens(peers, ip)[1] == 0;
  }

  lemma StarExitPeer(net: Network, server: Device, client: Device)
    requires net.Valid() && net.Find(net.serverId) == Some(server)
    ensures var exit := ExitPeer(net, client, [ServerPeer(net, server)]);
      if StarExit(net, client).None? then exit == []
      else
        && |exit| == 1 && exit[0].publicKey == StarExit(net, client).value.publicKey
        && exit[0].allowedIps == [V4(DEFAULT_ROUTE), Other("::/0")]
  {
    if StarExit(net, client).Some? {
      var d := StarExit(net, client).value;
      assert d.id != server.id && d in net.devices && server in net.devices;
      SameId(net, d, server);
    }
  }

  lemma OutsideSubnet(net: Network, ip: Ip)
    requires !Contains(net.subnet, ip)
    ensures MatchLen([V4(net.subnet)], ip) == -1
  {
    assert MatchLen([], ip) == -1;
    assert [V4(net.subnet)][1..] == [];
  }

  /** How well the routes of the other devices match ip; the hybrid hub's routes are not in the plan. */
  function AdvertisedLens(kind: Kind, net: Network, others: seq<Device>, ip: Ip): (r: seq<int>)
    ensures |r| == |others| && forall k | 0 <= k < |r| ::
      r[k] == if kind.Hybrid? && others[k].id == net.serverId then -1 else RouteLen(net, others[k], ip)
  {
    seq(|others|, k requires 0 <= k < |others| =>
      if kind.Hybrid? && others[k].id == net.serverId then -1 else RouteLen(net, others[k], ip))
  }

  /**
   * In mesh and hybrid the advertised routes alone decide where a packet for outside the subnet goes; no exit node has a
   * part in it, but that a device that is its own exit node gets itself where no route is longer than 0.
   */
  lemma OutsideHop(kind: Kind, net: Network, self: Device, ip: Ip)
    requires net.Valid() && self in net.devices && !kind.Star? && !Contains(net.subnet, ip)
    ensures var others := net.Others(self.id);
      var lens := AdvertisedLens(kind, net, others, ip);
      var w := LastMax(lens);
      NextHop(Peers(kind, net, self), ip) ==
        if OwnExit(net, self) && (w < 0 || lens[w] == 0) then Some(self.publicKey)
        else if w < 0 then None else Some(others[w].publicKey)
  {
    hide MatchLen; hide PeerFor; hide RouteLen; hide ExitPeer; hide OwnExit; hide PeersFor; hide LastMax; hide Except;
    var others, direct := net.Others(self.id), PeersFor(kind, net, net.Others(self.id));
    var lens, exit := AdvertisedLens(kind, net, others, ip), ExitPeer(net, self, direct);
    ExitPeerOnlyForSelf(kind, net, self);
    DirectLens(kind, net, self.id, ip);
    assert Peers(kind, net, self) == direct + exit;
    hide Peers; hide Network.Valid; hide AdvertisedLens;
    if exit == [] {
      assert direct + exit == direct;
    } else {
      ExitLen(ip);
      assert Lens(direct + exit, ip) == lens + [0];
      LastMaxOfZero(lens);
    }
  }

  lemma LastMaxOfZero(lens: seq<int>)
    ensures var w := LastMax(lens); LastMax(lens + [0]) == if w < 0 || lens[w] <= 0 then |lens| else w
  {
    assert (lens + [0])[..|lens|] == lens;
  }

  lemma DirectLens(kind: Kind, net: Network, id: string, ip: Ip)
    requires net.Valid() && !Contains(net.subnet, ip) && !kind.Star?
    ensures var others, direct := net.Others(id), PeersFor(kind, net, net.Others(id));
      && Lens(direct, ip) == AdvertisedLens(kind, net, others, ip)
      && forall k | 0 <= k < |others| :: direct[k].publicKey == others[k].publicKey
  {
    var others, direct := net.Others(id), PeersFor(kind, net, net.Others(id));
    OthersAre(net, id);
    hide MatchLen; hide RouteLen; hide Except; hide PeerFor; hide Network.Valid;
    forall k | 0 <= k < |others|
      ensures Lens(direct, ip)[k] == AdvertisedLens(kind, net, others, ip)[k]
    {
      PeerLenOutside(kind, net, others[k], ip);
    }
    assert Lens(direct, ip) == AdvertisedLens(kind, net, others, ip);
  }

  lemma PeerLenOutside(kind: Kind, net: Network, d: Device, ip: Ip)
    requires !Contains(net.subnet, ip) && Contains(net.subnet, d.ip)
    ensures MatchLen(PeerFor(kind, net, d).allowedIps, ip) ==
      if kind.Hybrid? && d.id == net.serverId then -1 else RouteLen(net, d, ip)
  {
    HostRoutesLen(net, d, ip);
    OutsideSubnet(net, ip);
    hide MatchLen; hide HostRoutes; hide BestPlanned;
  }

  // ----- The hub as a fallback

  /**
   * With such routes as Delivery assumes, a hybrid device sends a packet to the hub only when it is for the hub. So a
   * device without endpoint rows is not reached through the hub: its packets have a peer of their own, which is served
   * without an endpoint and asks for a relay.
   */
  lemma HybridHasNoFallback(net: Network, server: Device, src: Device, dst: Device)
    requires net.Valid() && net.subnet.len > 0 && RoutesOutside(net) && net.Find(net.serverId) == Some(server)
    requires src in net.devices && dst in net.devices && src != dst && src != server
    ensures NextHop(Peers(Hybrid, net, src), dst.ip) == Some(server.publicKey) <==> dst == server
    ensures var w := Winner(Peers(Hybrid, net, src), dst.ip);
      && w >= 0 && Peers(Hybrid, net, src)[w].publicKey == dst.publicKey
      && (dst != server && net.EndpointsOf(dst.id) == [] ==>
            var info := ConfigV2.PeerInfos(Hybrid, net, Peers(Hybrid, net, src))[w];
            info.publicKey == dst.publicKey && info.endpoint == None && info.endpointPort == None && info.relayRequired)
  {
    hide Peers; hide Winner; hide RouteLen; hide Network.Valid; hide Except; hide ConfigV2.PeerInfoOf;
    SameId(net, src, dst);
    SameId(net, dst, server);
    var i := IndexOfOther(net, src.id, dst);
    OthersAre(net, src.id);
    RoutesOfOthersAreShort(net, src.id, dst.ip);
    WinnerIff(Hybrid, net, src, i);
    KeysOfPlan(Hybrid, net, src, i);
    DistinctKeysOf(net, dst, server);
    ConfigV2.RelayRequiredIff(Hybrid, net, src, i);
    if net.EndpointsOf(dst.id) == [] {
      ConfigV2.EndpointWithoutRows(Hybrid, net, src, i);
    }
  }

  lemma DistinctKeysOf(net: Network, a: Device, b: Device)
    requires net.Valid() && a in net.devices && b in net.devices
    ensures a.publicKey == b.publicKey <==> a == b
  {
  }
}
