/** The star, mesh and hybrid planners: which peers a device gets, and which addresses it sends to each. */
module Topology {

  import opened Options
  import opened Seqs
  import opened Address
  import opened Endpoints

  // An allowed-ips entry: an IPv4 prefix, or any other text, such as "::/0".
  datatype AllowedIp = V4(prefix: Prefix) | Other(text: string)

  datatype Device = Device(id: string, publicKey: string, ip: Ip, exitNodeId: Option<string>)

  datatype PeerPlan = PeerPlan(
    publicKey: string,
    allowedIps: seq<AllowedIp>,
    endpoint: Option<string>,
    endpointPort: Option<int>,
    persistentKeepalive: Option<int>,
    relayFallback: bool)

  // The network as the planner sees it; serverEndpoint and serverPort are the configured ones.
  datatype Network = Network(
    subnet: Prefix,
    devices: seq<Device>,
    serverId: string,
    serverEndpoint: string,
    serverPort: int,
    routes: map<string, seq<AllowedIp>>,
    endpoints: map<string, seq<Endpoint>>)
  {
    function RoutesOf(id: string): seq<AllowedIp> {
      if id in routes then routes[id] else []
    }

    function EndpointsOf(id: string): seq<Endpoint> {
      if id in endpoints then endpoints[id] else []
    }

    /** All devices except the one with this id, in order. */
    function Others(id: string): seq<Device> {
      Except(devices, id)
    }

    function Find(id: string): Option<Device> {
      FindDevice(devices, id)
    }

    /** Ids, keys and addresses are distinct and the addresses lie in the subnet. */
    ghost predicate Valid() {
      && DistinctDevices(devices)
      && forall i | 0 <= i < |devices| :: Contains(subnet, devices[i].ip)
    }
  }

  ghost predicate DistinctDevices(ds: seq<Device>) {
    forall i, j | 0 <= i < j < |ds| ::
      ds[i].id != ds[j].id && ds[i].publicKey != ds[j].publicKey && ds[i].ip != ds[j].ip
  }

  function Except(ds: seq<Device>, id: string): seq<Device> {
    if ds == [] then []
    else if ds[0].id == id then Except(ds[1..], id)
    else [ds[0]] + Except(ds[1..], id)
  }

  // The first device with this id.
  function FindDevice(ds: seq<Device>, id: string): (r: Option<Device>)
    ensures r.Some? ==> r.value in ds && r.value.id == id
    ensures r.None? ==> forall d | d in ds :: d.id != id
  {
    if ds == [] then None else if ds[0].id == id then Some(ds[0]) else FindDevice(ds[1..], id)
  }

  function HostRoutes(net: Network, d: Device): seq<AllowedIp> {
    [V4(HostPrefix(d.ip))] + net.RoutesOf(d.id)
  }

  function Or<T>(a: Option<T>, b: Option<T>): Option<T> {
    if a.Some? then a else b
  }

  // Python's truth of an optional string or number.
  function NonEmpty(s: Option<string>): Option<string> {
    if s == Some("") then None else s
  }

  function NonZero(n: Option<int>): Option<int> {
    if n == Some(0) then None else n
  }

  // ----- One peer

  /** Star, at the hub. */
  function ClientPeer(net: Network, d: Device): PeerPlan {
    PeerPlan(d.publicKey, HostRoutes(net, d), None, None, None, false)
  }

  function MeshPeer(net: Network, d: Device): PeerPlan {
    var (ep, port) := BestPlanned(net.EndpointsOf(d.id));
    var isServer := d.id == net.serverId;
    PeerPlan(
      d.publicKey,
      HostRoutes(net, d),
      Or(NonEmpty(ep), if isServer then Some(net.serverEndpoint) else None),
      Or(NonZero(port), if isServer then Some(net.serverPort) else None),
      Some(25),
      net.EndpointsOf(d.id) == [])
  }

  function HybridPeer(net: Network, d: Device): PeerPlan {
    var (ep, port) := BestPlanned(net.EndpointsOf(d.id));
    if d.id == net.serverId then
      PeerPlan(
        d.publicKey,
        [V4(net.subnet)],
        Or(NonEmpty(ep), Some(net.serverEndpoint)),
        Or(NonZero(port), Some(net.serverPort)),
        Some(25),
        false)
    else if NonEmpty(ep).Some? then
      PeerPlan(d.publicKey, HostRoutes(net, d), ep, port, Some(25), false)
    else
      PeerPlan(d.publicKey, HostRoutes(net, d), None, None, None, true)
  }

  function ServerPeer(net: Network, server: Device): PeerPlan {
    PeerPlan(server.publicKey, [V4(net.subnet)], Some(net.serverEndpoint), Some(net.serverPort), Some(25), false)
  }

  predicate HasPeer(peers: seq<PeerPlan>, key: string) {
    exists p | p in peers :: p.publicKey == key
  }

  /** The peer for the exit node, unless it is the server, unknown, keyless or already a peer. */
  function ExitPeer(net: Network, self: Device, peers: seq<PeerPlan>): (r: seq<PeerPlan>)
    ensures |r| <= 1
  {
    var exit := NonEmpty(self.exitNodeId);
    if exit.None? || exit.value == net.serverId then []
    else
      match net.Find(exit.value)
      case None => []
      case Some(d) =>
        if d.publicKey == "" || HasPeer(peers, d.publicKey) then []
        else [PeerPlan(d.publicKey, [V4(DEFAULT_ROUTE), Other("::/0")], None, None, None, false)]
  }

  // ----- The plans

  datatype Kind = Star | Mesh | Hybrid

  /** The peer that each kind of planner makes for another device in its loop. */
  function PeerFor(kind: Kind, net: Network, d: Device): (p: PeerPlan)
    ensures p.publicKey == d.publicKey
  {
    match kind
    case Star => ClientPeer(net, d)
    case Mesh => MeshPeer(net, d)
    case Hybrid => HybridPeer(net, d)
  }

  function PeersFor(kind: Kind, net: Network, ds: seq<Device>): (r: seq<PeerPlan>)
    ensures |r| == |ds| && forall i | 0 <= i < |r| :: r[i] == PeerFor(kind, net, ds[i])
  {
    if ds == [] then [] else [PeerFor(kind, net, ds[0])] + PeersFor(kind, net, ds[1..])
  }

  /** The peers that the planner gives to self. */
  function Peers(kind: Kind, net: Network, self: Device): seq<PeerPlan> {
    if kind.Star? then
      match net.Find(net.serverId)
      case None => []
      case Some(server) =>
        if self.id == net.serverId then PeersFor(Star, net, net.Others(net.serverId))
        else [ServerPeer(net, server)] + ExitPeer(net, self, [ServerPeer(net, server)])
    else
      var direct := PeersFor(kind, net, net.Others(self.id));
      direct + ExitPeer(net, self, direct)
  }

  // The shared loop: one peer for every device but one.
  method DirectPeers(kind: Kind, net: Network, skipped: string) returns (peers: seq<PeerPlan>)
    ensures peers == PeersFor(kind, net, net.Others(skipped))
  {
    peers := [];
    ghost var all := PeersFor(kind, net, net.Others(skipped));
    assert net.devices[0..] == net.devices && peers + all == all;
    for i := 0 to |net.devices|
      invariant peers + PeersFor(kind, net, Except(net.devices[i..], skipped)) == all
    {
      var other := net.devices[i];
      LoopStep(kind, net, i, skipped, peers);
      if other.id == skipped {
        continue;
      }
      peers := peers + [PeerFor(kind, net, other)];
    }
    assert net.devices[|net.devices|..] == [] && peers + [] == peers;
  }

  lemma LoopStep(kind: Kind, net: Network, i: nat, skipped: string, peers: seq<PeerPlan>)
    requires i < |net.devices|
    ensures peers + PeersFor(kind, net, Except(net.devices[i..], skipped)) ==
      (if net.devices[i].id == skipped then peers else peers + [PeerFor(kind, net, net.devices[i])])
      + PeersFor(kind, net, Except(net.devices[i + 1..], skipped))
  {
    hide PeerFor;
    var ds, rest := net.devices[i..], Except(net.devices[i + 1..], skipped);
    assert ds[0] == net.devices[i] && ds[1..] == net.devices[i + 1..];
    Parts([ds[0]], rest);
    Assoc(peers, [PeerFor(kind, net, ds[0])], PeersFor(kind, net, rest));
  }

  method GenerateStar(net: Network, self: Device) returns (peers: seq<PeerPlan>)
    ensures peers == Peers(Star, net, self)
  {
    var server := net.Find(net.serverId);
    if server.None? {
      return [];
    }
    if self.id == net.serverId {
      peers := DirectPeers(Star, net, net.serverId);
    } else {
      peers := [ServerPeer(net, server.value)];
      peers := peers + ExitPeer(net, self, peers);
    }
  }

  method GenerateMeshOrHybrid(kind: Kind, net: Network, self: Device) returns (peers: seq<PeerPlan>)
    requires !kind.Star?
    ensures peers == Peers(kind, net, self)
  {
    peers := DirectPeers(kind, net, self.id);
    peers := peers + ExitPeer(net, self, peers);
  }

  // ----- The other devices

  lemma {:induction false} ExceptContents(ds: seq<Device>, id: string)
    ensures forall d :: d in Except(ds, id) <==> d in ds && d.id != id
    ensures DistinctDevices(ds) ==> DistinctDevices(Except(ds, id))
  {
    if ds != [] {
      ExceptContents(ds[1..], id);
      var rest := Except(ds[1..], id);
      forall i | 0 <= i < |rest| && DistinctDevices(ds)
        ensures ds[0].id != rest[i].id && ds[0].publicKey != rest[i].publicKey && ds[0].ip != rest[i].ip
      {
        assert rest[i] in ds[1..];
        var j :| 0 <= j < |ds[1..]| && ds[1..][j] == rest[i];
        assert ds[j + 1] == rest[i];
      }
    }
  }

  lemma {:induction false} ExceptSize(ds: seq<Device>, self: Device)
    requires DistinctDevices(ds) && self in ds
    ensures |Except(ds, self.id)| == |ds| - 1
  {
    if ds[0].id == self.id {
      ExceptNone(ds[1..], self.id);
    } else {
      ExceptSize(ds[1..], self);
    }
  }

  lemma {:induction false} ExceptNone(ds: seq<Device>, id: string)
    requires forall i | 0 <= i < |ds| :: ds[i].id != id
    ensures Except(ds, id) == ds
  {
    if ds != [] {
      ExceptNone(ds[1..], id);
    }
  }

  /** Whether the exit-node branch adds a peer in mesh and hybrid: only for a device that is its own exit node. */
  predicate OwnExit(net: Network, self: Device) {
    self.exitNodeId == Some(self.id) && self.id != "" && self.id != net.serverId && self.publicKey != ""
  }

  lemma ExitPeerOnlyForSelf(kind: Kind, net: Network, self: Device)
    requires net.Valid() && self in net.devices && !kind.Star?
    ensures var exit := ExitPeer(net, self, PeersFor(kind, net, net.Others(self.id)));
      if OwnExit(net, self) then |exit| == 1 && exit[0].publicKey == self.publicKey
        && exit[0].allowedIps == [V4(DEFAULT_ROUTE), Other("::/0")]
      else exit == []
  {
    var exit := NonEmpty(self.exitNodeId);
    if exit.Some? && net.Find(exit.value).Some? {
      DirectHasKey(kind, net, self, net.Find(exit.value).value);
    }
    hide PeersFor; hide HasPeer; hide DistinctDevices;
  }

  lemma DirectHasKey(kind: Kind, net: Network, self: Device, d: Device)
    requires net.Valid() && self in net.devices && d in net.devices
    ensures HasPeer(PeersFor(kind, net, net.Others(self.id)), d.publicKey) <==> d.id != self.id
    ensures d.id == self.id <==> d == self
  {
    hide PeerFor;
    ExceptContents(net.devices, self.id);
    var others := net.Others(self.id);
    var direct := PeersFor(kind, net, others);
    if d.id != self.id {
      var i :| 0 <= i < |others| && others[i] == d;
      assert direct[i] in direct;
    } else {
      forall p | p in direct ensures p.publicKey != d.publicKey {
        var i :| 0 <= i < |direct| && direct[i] == p;
        assert others[i] in others;
      }
    }
  }

  /** A mesh or hybrid plan has one peer for each other device, in order, and the exit node's only in OwnExit. */
  lemma PlanIsComplete(kind: Kind, net: Network, self: Device)
    requires net.Valid() && self in net.devices && !kind.Star?
    ensures var peers, others := Peers(kind, net, self), net.Others(self.id);
      && |others| == |net.devices| - 1
      && |peers| == |others| + (if OwnExit(net, self) then 1 else 0)
      && (forall i | 0 <= i < |others| :: peers[i].publicKey == others[i].publicKey)
      && (forall i, j | 0 <= i < j < |others| :: peers[i].publicKey != peers[j].publicKey)
  {
    ExitPeerOnlyForSelf(kind, net, self);
    ExceptSize(net.devices, self);
    ExceptContents(net.devices, self.id);
  }

  /** Peering is mutual, and it is with every other device. */
  lemma PlansAreMutual(kind: Kind, net: Network, a: Device, b: Device)
    requires net.Valid() && a in net.devices && b in net.devices && !kind.Star?
    requires a != b
    ensures HasPeer(Peers(kind, net, a), b.publicKey) && HasPeer(Peers(kind, net, b), a.publicKey)
    ensures HasPeer(Peers(kind, net, a), a.publicKey) <==> OwnExit(net, a)
  {
    var direct, direct' := PeersFor(kind, net, net.Others(a.id)), PeersFor(kind, net, net.Others(b.id));
    DirectHasKey(kind, net, a, b);
    DirectHasKey(kind, net, b, a);
    DirectHasKey(kind, net, a, a);
    ExitPeerOnlyForSelf(kind, net, a);
    var exit, exit' := ExitPeer(net, a, direct), ExitPeer(net, b, direct');
    hide PeersFor; hide DistinctDevices; hide OwnExit; hide ExitPeer;
    HasEither(direct, exit, b.publicKey);
    HasEither(direct', exit', a.publicKey);
    HasEither(direct, exit, a.publicKey);
    assert OwnExit(net, a) ==> exit[0] in exit;
  }

  lemma HasEither(a: seq<PeerPlan>, b: seq<PeerPlan>, key: string)
    ensures HasPeer(a + b, key) <==> HasPeer(a, key) || HasPeer(b, key)
  {
    if p :| p in a && p.publicKey == key { assert p in a + b; }
    if p :| p in b && p.publicKey == key { assert p in a + b; }
  }
}
