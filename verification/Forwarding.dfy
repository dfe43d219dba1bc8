/** What the planned allowed-ips mean: WireGuard sends a packet to the peer with the longest matching prefix. */
module Forwarding {

  import opened Options
  import opened Seqs
  import opened Address
  import opened Endpoints
  import opened Topology

  predicate Matches(a: AllowedIp, ip: Ip) {
    a.V4? && Contains(a.prefix, ip)
  }

  /** The length of the longest entry that matches, or -1. */
  function MatchLen(ips: seq<AllowedIp>, ip: Ip): (r: int)
    ensures -1 <= r <= 32
    ensures forall a | a in ips && Matches(a, ip) :: a.prefix.len <= r
    ensures r >= 0 ==> exists a | a in ips && Matches(a, ip) :: a.prefix.len == r
  {
    if ips == [] then -1
    else
      var rest := MatchLen(ips[1..], ip);
      if Matches(ips[0], ip) && ips[0].prefix.len > rest then ips[0].prefix.len else rest
  }

  function Lens(peers: seq<PeerPlan>, ip: Ip): (r: seq<int>)
    ensures |r| == |peers| && forall k | 0 <= k < |r| :: r[k] == MatchLen(peers[k].allowedIps, ip)
  {
    seq(|peers|, k requires 0 <= k < |peers| => MatchLen(peers[k].allowedIps, ip))
  }

  // The last index of the greatest number, or -1 when all are negative.
  function LastMax(lens: seq<int>): (w: int)
    ensures -1 <= w < |lens|
    ensures w >= 0 ==> lens[w] >= 0
  {
    if lens == [] then -1
    else
      var n := |lens| - 1;
      var w := LastMax(lens[..n]);
      if lens[n] >= 0 && (w < 0 || lens[w] <= lens[n]) then n else w
  }

  // Entry i is at least as great as those before it and greater than those after it.
  ghost predicate Dominates(lens: seq<int>, i: nat)
    requires i < |lens|
  {
    && (forall k | 0 <= k < i :: lens[k] <= lens[i])
    && (forall k | i < k < |lens| :: lens[k] < lens[i])
  }

  lemma {:induction false} LastMaxDominates(lens: seq<int>)
    ensures var w := LastMax(lens);
      if w < 0 then forall k | 0 <= k < |lens| :: lens[k] < 0 else Dominates(lens, w)
  {
    if lens != [] {
      LastMaxDominates(lens[..|lens| - 1]);
    }
  }

  /**
   * The index of the peer that a packet for ip is sent to, or -1: the one with the longest match. A prefix given to
   * two peers belongs to the one configured last.
   */
  function Winner(peers: seq<PeerPlan>, ip: Ip): (w: int)
    ensures -1 <= w < |peers|
  {
    LastMax(Lens(peers, ip))
  }

  /** Peer i gets the packet exactly when it matches no worse than those before it and better than those after it. */
  lemma WinnerDominates(peers: seq<PeerPlan>, ip: Ip, i: nat)
    requires i < |peers| && MatchLen(peers[i].allowedIps, ip) >= 0
    ensures Winner(peers, ip) == i <==> Dominates(Lens(peers, ip), i)
  {
    LastMaxDominates(Lens(peers, ip));
  }

  function NextHop(peers: seq<PeerPlan>, ip: Ip): Option<string> {
    var w := Winner(peers, ip);
    if w < 0 then None else Some(peers[w].publicKey)
  }

  function Holder(ds: seq<Device>, key: string): (r: Option<Device>)
    ensures r.Some? ==> r.value in ds && r.value.publicKey == key
    ensures r.None? ==> forall d | d in ds :: d.publicKey != key
  {
    if ds == [] then None else if ds[0].publicKey == key then Some(ds[0]) else Holder(ds[1..], key)
  }

  /** How many hops a packet for dst's address takes from src, when it arrives within the given number of hops. */
  function Hops(kind: Kind, net: Network, src: Device, dst: Device, limit: nat): Option<nat>
    decreases limit
  {
    if src == dst then Some(0)
    else if limit == 0 then None
    else
      match NextHop(Peers(kind, net, src), dst.ip)
      case None => None
      case Some(key) =>
        match Holder(net.devices, key)
        case None => None
        case Some(d) =>
          match Hops(kind, net, d, dst, limit - 1)
          case None => None
          case Some(n) => Some(n + 1)
  }

  /** How well the routes that d advertises match ip. */
  function RouteLen(net: Network, d: Device, ip: Ip): int {
    MatchLen(net.RoutesOf(d.id), ip)
  }

  lemma HostRoutesLen(net: Network, d: Device, ip: Ip)
    ensures MatchLen(HostRoutes(net, d), ip) == if d.ip == ip then 32 else RouteLen(net, d, ip)
  {
    HostContainsOnly(d.ip, ip);
    Parts([V4(HostPrefix(d.ip))], net.RoutesOf(d.id));
  }

  // How well the peer made for d matches the address of a device.
  lemma PeerLen(kind: Kind, net: Network, d: Device, ip: Ip)
    requires Contains(net.subnet, ip)
    ensures MatchLen(PeerFor(kind, net, d).allowedIps, ip) ==
      if kind.Hybrid? && d.id == net.serverId then net.subnet.len
      else if d.ip == ip then 32
      else RouteLen(net, d, ip)
  {
    HostRoutesLen(net, d, ip);
    SubnetLen(net, ip);
    hide MatchLen; hide HostRoutes; hide BestPlanned;
  }

  lemma SubnetLen(net: Network, ip: Ip)
    ensures Contains(net.subnet, ip) ==> MatchLen([V4(net.subnet)], ip) == net.subnet.len
  {
    assert MatchLen([], ip) == -1;
    assert [V4(net.subnet)][1..] == [];
  }

  lemma ExitLen(ip: Ip)
    ensures MatchLen([V4(DEFAULT_ROUTE), Other("::/0")], ip) == 0
  {
    DefaultContainsAll(ip);
    var all := [V4(DEFAULT_ROUTE), Other("::/0")];
    assert all[0] in all && Matches(all[0], ip);
    assert forall a | a in all && Matches(a, ip) :: a.prefix.len == 0;
  }

  lemma HolderUnique(net: Network, d: Device)
    requires net.Valid() && d in net.devices
    ensures Holder(net.devices, d.publicKey) == Some(d)
  {
  }

  lemma OthersAre(net: Network, id: string)
    requires net.Valid()
    ensures DistinctDevices(net.Others(id))
    ensures forall i | 0 <= i < |net.Others(id)| ::
      var d := net.Others(id)[i]; d in net.devices && d.id != id && Contains(net.subnet, d.ip)
  {
    ExceptContents(net.devices, id);
    var others := net.Others(id);
    forall i | 0 <= i < |others|
      ensures others[i] in net.devices && others[i].id != id && Contains(net.subnet, others[i].ip)
    {
      assert others[i] in others;
      var j :| 0 <= j < |net.devices| && net.devices[j] == others[i];
    }
  }

  // ----- Mesh and hybrid

  /**
   * No other device's advertised route takes the packets for the i-th other device. In the hybrid plan the hub is
   * reached through the subnet prefix only, so any longer route takes its packets; every other device has its own
   * /32, which only a /32 route of a device later in the list can take.
   */
  ghost predicate Unstolen(kind: Kind, net: Network, self: Device, i: nat)
    requires i < |net.Others(self.id)|
  {
    var others := net.Others(self.id);
    var ip := others[i].ip;
    if kind.Hybrid? && others[i].id == net.serverId then
      forall k | 0 <= k < |others| && k != i ::
        if k < i then RouteLen(net, others[k], ip) <= net.subnet.len else RouteLen(net, others[k], ip) < net.subnet.len
    else
      forall k | i < k < |others| && !(kind.Hybrid? && others[k].id == net.serverId) ::
        RouteLen(net, others[k], ip) < 32
  }

  /** The winner among the planned peers is the i-th other device exactly when no route takes its packets. */
  lemma WinnerIff(kind: Kind, net: Network, self: Device, i: nat)
    requires net.Valid() && self in net.devices && !kind.Star? && net.subnet.len > 0
    requires i < |net.Others(self.id)|
    ensures Winner(Peers(kind, net, self), net.Others(self.id)[i].ip) == i <==> Unstolen(kind, net, self, i)
  {
    hide Peers; hide Winner; hide RouteLen; hide MatchLen; hide Network.Valid; hide Contains; hide Except;
    var others, peers := net.Others(self.id), Peers(kind, net, self);
    var ip := others[i].ip;
    PlannedLens(kind, net, self, i);
    OthersAre(net, self.id);
    WinnerDominates(peers, ip, i);
    SelfIsOther(net, self, i);
    TwoAddresses(net.subnet, self.ip, ip);
    var lens := Lens(peers, ip);
    assert forall k | 0 <= k < |others| :: lens[k] == MatchLen(peers[k].allowedIps, ip);
    assert |peers| > |others| ==> lens[|others|] == 0;
  }

  // How well each planned peer matches the address of the i-th other device.
  lemma PlannedLens(kind: Kind, net: Network, self: Device, i: nat)
    requires net.Valid() && self in net.devices && !kind.Star?
    requires i < |net.Others(self.id)|
    ensures var others, peers, ip := net.Others(self.id), Peers(kind, net, self), net.Others(self.id)[i].ip;
      && |others| <= |peers| <= |others| + 1
      && (forall k | 0 <= k < |others| :: MatchLen(peers[k].allowedIps, ip) ==
            if kind.Hybrid? && others[k].id == net.serverId then net.subnet.len
            else if k == i then 32 else RouteLen(net, others[k], ip))
      && (|peers| > |others| ==> MatchLen(peers[|others|].allowedIps, ip) == 0)
  {
    hide MatchLen; hide PeerFor; hide RouteLen; hide ExitPeer;
    var others, peers := net.Others(self.id), Peers(kind, net, self);
    var ip := others[i].ip;
    OthersAre(net, self.id);
    ExitPeerOnlyForSelf(kind, net, self);
    ExitLen(ip);
    forall k | 0 <= k < |others|
      ensures MatchLen(peers[k].allowedIps, ip) ==
        if kind.Hybrid? && others[k].id == net.serverId then net.subnet.len
        else if k == i then 32 else RouteLen(net, others[k], ip)
    {
      PeerLen(kind, net, others[k], ip);
    }
  }

  lemma SelfIsOther(net: Network, self: Device, i: nat)
    requires net.Valid() && self in net.devices && i < |net.Others(self.id)|
    ensures net.Others(self.id)[i].ip != self.ip && net.Others(self.id)[i].publicKey != self.publicKey
    ensures Contains(net.subnet, self.ip) && Contains(net.subnet, net.Others(self.id)[i].ip)
  {
    OthersAre(net, self.id);
    var a :| 0 <= a < |net.devices| && net.devices[a] == self;
    var b :| 0 <= b < |net.devices| && net.devices[b] == net.Others(self.id)[i];
  }

  /** In mesh and hybrid a packet reaches the i-th other device in one hop if and only if it is not stolen. */
  lemma OneHopIff(kind: Kind, net: Network, self: Device, i: nat, limit: nat)
    requires net.Valid() && self in net.devices && !kind.Star? && net.subnet.len > 0
    requires i < |net.Others(self.id)| && limit > 0
    ensures Hops(kind, net, self, net.Others(self.id)[i], limit) == Some(1) <==> Unstolen(kind, net, self, i)
  {
    var others, peers := net.Others(self.id), Peers(kind, net, self);
    var dst := others[i];
    WinnerIff(kind, net, self, i);
    OthersAre(net, self.id);
    KeysOfPlan(kind, net, self, i);
    FirstHop(kind, net, self, dst, i, limit);
    hide Peers; hide Winner; hide Unstolen; hide Hops;
  }

  lemma KeysOfPlan(kind: Kind, net: Network, self: Device, i: nat)
    requires net.Valid() && self in net.devices && !kind.Star? && i < |net.Others(self.id)|
    ensures var peers, key := Peers(kind, net, self), net.Others(self.id)[i].publicKey;
      && i < |peers| && peers[i].publicKey == key
      && forall k | 0 <= k < |peers| && k != i :: peers[k].publicKey != key
  {
    hide PeerFor; hide ExitPeer; hide OwnExit;
    PlanIsComplete(kind, net, self);
    SelfIsOther(net, self, i);
    ExitPeerOnlyForSelf(kind, net, self);
  }

  // One hop means that the first peer chosen is the destination.
  lemma FirstHop(kind: Kind, net: Network, src: Device, dst: Device, i: nat, limit: nat)
    requires net.Valid() && src in net.devices && dst in net.devices && src != dst && limit > 0
    requires i < |Peers(kind, net, src)| && Peers(kind, net, src)[i].publicKey == dst.publicKey
    requires forall k | 0 <= k < |Peers(kind, net, src)| && k != i ::
      Peers(kind, net, src)[k].publicKey != dst.publicKey
    ensures Hops(kind, net, src, dst, limit) == Some(1) <==> Winner(Peers(kind, net, src), dst.ip) == i
  {
    hide Winner; hide Peers;
    HolderUnique(net, dst);
    var next := NextHop(Peers(kind, net, src), dst.ip);
    if next.Some? && Holder(net.devices, next.value).Some? {
      var d := Holder(net.devices, next.value).value;
      assert Hops(kind, net, d, dst, limit - 1) == Some(0) <==> d == dst;
    }
  }

  // ----- Star

  /** No later client's /32 route takes the packets that the hub has for its i-th client. */
  ghost predicate HubUnstolen(net: Network, i: nat)
    requires i < |net.Others(net.serverId)|
  {
    var clients := net.Others(net.serverId);
    forall k | i < k < |clients| :: RouteLen(net, clients[k], clients[i].ip) < 32
  }

  lemma HubLens(net: Network, server: Device, i: nat)
    requires net.Valid() && net.Find(net.serverId) == Some(server)
    requires i < |net.Others(net.serverId)|
    ensures var clients, peers, ip := net.Others(net.serverId), Peers(Star, net, server), net.Others(net.serverId)[i].ip;
      && |peers| == |clients|
      && (forall k | 0 <= k < |clients| :: peers[k].publicKey == clients[k].publicKey)
      && (forall k | 0 <= k < |clients| ::
            MatchLen(peers[k].allowedIps, ip) == if k == i then 32 else RouteLen(net, clients[k], ip))
  {
    hide MatchLen; hide PeerFor; hide RouteLen;
    var clients := net.Others(net.serverId);
    var ip := clients[i].ip;
    OthersAre(net, net.serverId);
    forall k | 0 <= k < |clients|
      ensures MatchLen(Peers(Star, net, server)[k].allowedIps, ip) == if k == i then 32 else RouteLen(net, clients[k], ip)
    {
      PeerLen(Star, net, clients[k], ip);
    }
  }

  lemma HubWinnerIff(net: Network, server: Device, i: nat)
    requires net.Valid() && net.Find(net.serverId) == Some(server)
    requires i < |net.Others(net.serverId)|
    ensures Winner(Peers(Star, net, server), net.Others(net.serverId)[i].ip) == i <==> HubUnstolen(net, i)
  {
    hide Peers; hide Winner; hide RouteLen; hide MatchLen; hide Network.Valid; hide Except;
    var peers, ip := Peers(Star, net, server), net.Others(net.serverId)[i].ip;
    HubLens(net, server, i);
    WinnerDominates(peers, ip, i);
    assert forall k | 0 <= k < |peers| :: Lens(peers, ip)[k] == MatchLen(peers[k].allowedIps, ip);
  }

  /** A star client always sends to the hub, whatever its exit node. */
  lemma ClientSendsToHub(net: Network, server: Device, client: Device, ip: Ip)
    requires net.Valid() && net.Find(net.serverId) == Some(server)
    requires client in net.devices && client != server && Contains(net.subnet, ip) && net.subnet.len > 0
    ensures Winner(Peers(Star, net, client), ip) == 0
    ensures Peers(Star, net, client)[0].publicKey == server.publicKey
    ensures |Peers(Star, net, client)| == 2 ==> Peers(Star, net, client)[1].publicKey != server.publicKey
  {
    SubnetLen(net, ip);
    ExitLen(ip);
    assert client.id != net.serverId by { SameId(net, client, server); }
    var first := [ServerPeer(net, server)];
    var peers := Peers(Star, net, client);
    assert peers == first + ExitPeer(net, client, first);
    assert first[0] in first;
    WinnerDominates(peers, ip, 0);
    hide MatchLen; hide Winner;
  }

  lemma SameId(net: Network, a: Device, b: Device)
    requires net.Valid() && a in net.devices && b in net.devices
    ensures a.id == b.id <==> a == b
  {
  }

  /** Hub to client: one hop, if and only if no later client's /32 route takes the packet. */
  lemma HubToClientIff(net: Network, server: Device, i: nat, limit: nat)
    requires net.Valid() && net.Find(net.serverId) == Some(server)
    requires i < |net.Others(net.serverId)| && limit > 0
    ensures Hops(Star, net, server, net.Others(net.serverId)[i], limit) == Some(1) <==> HubUnstolen(net, i)
  {
    hide Peers; hide Winner; hide HubUnstolen; hide Hops; hide Except;
    var clients := net.Others(net.serverId);
    HubWinnerIff(net, server, i);
    OthersAre(net, net.serverId);
    HubLens(net, server, i);
    assert forall k | 0 <= k < |clients| && k != i :: clients[k].publicKey != clients[i].publicKey;
    FirstHop(Star, net, server, clients[i], i, limit);
  }

  /** Client to hub: always one hop. */
  lemma ClientToHub(net: Network, server: Device, client: Device, limit: nat)
    requires net.Valid() && net.Find(net.serverId) == Some(server)
    requires client in net.devices && client != server && net.subnet.len > 0 && limit > 0
    ensures Hops(Star, net, client, server, limit) == Some(1)
  {
    var a :| 0 <= a < |net.devices| && net.devices[a] == server;
    ClientSendsToHub(net, server, client, server.ip);
    FirstHop(Star, net, client, server, 0, limit);
  }

  /** Client to client: exactly two hops, if and only if the hub's packets for the target are not stolen. */
  lemma ClientToClientIff(net: Network, server: Device, client: Device, i: nat, limit: nat)
    requires net.Valid() && net.Find(net.serverId) == Some(server) && net.subnet.len > 0
    requires client in net.devices && client != server
    requires i < |net.Others(net.serverId)| && net.Others(net.serverId)[i] != client && limit >= 2
    ensures Hops(Star, net, client, net.Others(net.serverId)[i], limit) == Some(2) <==> HubUnstolen(net, i)
  {
    hide Winner; hide Peers; hide HubUnstolen; hide Network.Valid; hide Except;
    OthersAre(net, net.serverId);
    var dst := net.Others(net.serverId)[i];
    ClientSendsToHub(net, server, client, dst.ip);
    HolderUnique(net, server);
    HubToClientIff(net, server, i, limit - 1);
    assert NextHop(Peers(Star, net, client), dst.ip) == Some(server.publicKey);
  }

  // ----- Delivery

  /** Every advertised prefix that overlaps the subnet is strictly shorter than it. */
  ghost predicate RoutesOutside(net: Network) {
    forall d, a | d in net.devices && a in net.RoutesOf(d.id) ::
      a.V4? && Overlaps(a.prefix, net.subnet) ==> a.prefix.len < net.subnet.len
  }

  lemma RoutesAreShort(net: Network, d: Device, ip: Ip)
    requires RoutesOutside(net) && d in net.devices && Contains(net.subnet, ip)
    ensures RouteLen(net, d, ip) < net.subnet.len
  {
    var routes := net.RoutesOf(d.id);
    if MatchLen(routes, ip) >= 0 {
      var a :| a in routes && Matches(a, ip) && a.prefix.len == MatchLen(routes, ip);
      assert Contains(a.prefix, ip) && Contains(net.subnet, ip);
      assert Overlaps(a.prefix, net.subnet);
    }
  }

  /** With such routes every packet arrives: in two hops between star clients, in one hop otherwise. */
  lemma Delivery(kind: Kind, net: Network, src: Device, dst: Device)
    requires net.Valid() && net.subnet.len > 0 && RoutesOutside(net)
    requires src in net.devices && dst in net.devices && src != dst
    requires kind.Star? ==> net.Find(net.serverId).Some?
    ensures Hops(kind, net, src, dst, 2) ==
      Some(if kind.Star? && src.id != net.serverId && dst.id != net.serverId then 2 else 1)
  {
    hide Hops; hide RouteLen;
    SameId(net, src, dst);
    if !kind.Star? {
      var i := IndexOfOther(net, src.id, dst);
      OthersAre(net, src.id);
      RoutesOfOthersAreShort(net, src.id, dst.ip);
      OneHopIff(kind, net, src, i, 2);
    } else {
      var server := net.Find(net.serverId).value;
      SameId(net, src, server);
      SameId(net, dst, server);
      if dst == server {
        ClientToHub(net, server, src, 2);
      } else {
        var i := IndexOfOther(net, net.serverId, dst);
        OthersAre(net, net.serverId);
        RoutesOfOthersAreShort(net, net.serverId, dst.ip);
        if src == server {
          HubToClientIff(net, server, i, 2);
        } else {
          ClientToClientIff(net, server, src, i, 2);
        }
      }
    }
  }

  lemma RoutesOfOthersAreShort(net: Network, id: string, ip: Ip)
    requires net.Valid() && RoutesOutside(net) && Contains(net.subnet, ip)
    ensures forall k | 0 <= k < |net.Others(id)| :: RouteLen(net, net.Others(id)[k], ip) < net.subnet.len
  {
    OthersAre(net, id);
    forall k | 0 <= k < |net.Others(id)|
      ensures RouteLen(net, net.Others(id)[k], ip) < net.subnet.len
    {
      RoutesAreShort(net, net.Others(id)[k], ip);
    }
  }

  lemma IndexOfOther(net: Network, id: string, d: Device) returns (i: nat)
    requires d in net.devices && d.id != id
    ensures i < |net.Others(id)| && net.Others(id)[i] == d
  {
    ExceptContents(net.devices, id);
    i :| 0 <= i < |net.Others(id)| && net.Others(id)[i] == d;
  }
}
