/** Mesh and hybrid with any routes: exactly how many hops a packet takes, and which packets a receiver accepts. */
module RouteThieves {

  import opened Options
  import opened Address
  import opened Topology
  import opened Forwarding
  import opened ForwardingCases

  /** Whether b comes after a in the list. */
  predicate Later(ds: seq<Device>, a: Device, b: Device) {
    ds != [] && ((ds[0] == a && b in ds[1..]) || Later(ds[1..], a, b))
  }

  lemma {:induction false} LaterMembers(ds: seq<Device>, a: Device, b: Device)
    requires Later(ds, a, b)
    ensures a in ds && b in ds
  {
    if !(ds[0] == a && b in ds[1..]) {
      LaterMembers(ds[1..], a, b);
    }
  }

  lemma {:induction false} LaterAt(ds: seq<Device>, i: nat, k: nat)
    requires DistinctDevices(ds) && i < |ds| && k < |ds|
    ensures Later(ds, ds[i], ds[k]) <==> i < k
  {
    var rest := ds[1..];
    assert forall j | 0 < j < |ds| :: ds[j] == rest[j - 1] && ds[0].id != ds[j].id;
    if Later(rest, ds[i], ds[k]) {
      LaterMembers(rest, ds[i], ds[k]);
    }
    if i > 0 && k > 0 {
      LaterAt(rest, i - 1, k - 1);
    }
  }

  lemma {:induction false} LaterExcept(ds: seq<Device>, id: string, a: Device, b: Device)
    requires a.id != id && b.id != id
    ensures Later(Except(ds, id), a, b) <==> Later(ds, a, b)
  {
    if ds != [] {
      LaterExcept(ds[1..], id, a, b);
      ExceptContents(ds[1..], id);
      if ds[0].id != id {
        assert Except(ds, id)[1..] == Except(ds[1..], id);
      }
    }
  }

  // How well a device's own peer matches its address: the hybrid hub has the subnet prefix, all others their /32.
  function OwnLen(kind: Kind, net: Network, d: Device): nat {
    if kind.Hybrid? && d.id == net.serverId then net.subnet.len else 32
  }

  /**
   * A route that t advertises takes the packets for dst: it matches better than the peer of dst, or as well and t comes
   * later. The routes of the hybrid hub are in no plan.
   */
  predicate Steals(kind: Kind, net: Network, t: Device, dst: Device) {
    var len, own := RouteLen(net, t, dst.ip), OwnLen(kind, net, dst);
    && t != dst && !(kind.Hybrid? && t.id == net.serverId)
    && (len > own || (len == own && Later(net.devices, dst, t)))
  }

  function Thieves(kind: Kind, net: Network, dst: Device): set<Device> {
    set t | t in net.devices && Steals(kind, net, t, dst)
  }

  // ----- One hop

  lemma OthersLater(net: Network, id: string, i: nat, k: nat)
    requires net.Valid() && i < |net.Others(id)| && k < |net.Others(id)|
    ensures Later(net.devices, net.Others(id)[i], net.Others(id)[k]) <==> i < k
  {
    OthersAre(net, id);
    LaterExcept(net.devices, id, net.Others(id)[i], net.Others(id)[k]);
    LaterAt(net.Others(id), i, k);
  }

  // How well the peers planned for x match the address of its i-th other device.
  lemma LensAt(kind: Kind, net: Network, x: Device, i: nat, k: nat)
    requires net.Valid() && x in net.devices && !kind.Star? && net.subnet.len > 0
    requires i < |net.Others(x.id)| && k < |net.Others(x.id)|
    ensures var others, dst := net.Others(x.id), net.Others(x.id)[i];
      var lens := Lens(Peers(kind, net, x), dst.ip);
      && |others| <= |lens| && 0 < lens[i] == OwnLen(kind, net, dst)
      && (k != i && (if i < k then lens[i] <= lens[k] else lens[i] < lens[k]) <==> Steals(kind, net, others[k], dst))
      && forall m | |others| <= m < |lens| :: lens[m] == 0
  {
    hide Peers; hide MatchLen; hide RouteLen; hide Network.Valid; hide Except; hide Later;
    PlannedLens(kind, net, x, i);
    OthersLater(net, x.id, i, k);
    SelfIsOther(net, x, i);
    TwoAddresses(net.subnet, x.ip, net.Others(x.id)[i].ip);
    OthersAre(net, x.id);
  }

  // The same by position among the others.
  lemma TakerAt(kind: Kind, net: Network, x: Device, i: nat) returns (w: nat)
    requires net.Valid() && x in net.devices && !kind.Star? && net.subnet.len > 0 && i < |net.Others(x.id)|
    ensures var others := net.Others(x.id);
      && w < |others| && Winner(Peers(kind, net, x), others[i].ip) == w
      && (w != i ==> Steals(kind, net, others[w], others[i]))
      && (w == i ==> forall k | 0 <= k < |others| :: !Steals(kind, net, others[k], others[i]))
  {
    hide Peers; hide Steals; hide Lens; hide Network.Valid; hide Except; hide LastMax;
    var others := net.Others(x.id);
    var lens := Lens(Peers(kind, net, x), others[i].ip);
    LastMaxDominates(lens);
    LensAt(kind, net, x, i, i);
    w := LastMax(lens);
    LensAt(kind, net, x, i, w);
    if w == i {
      forall k | 0 <= k < |others| ensures !Steals(kind, net, others[k], others[i]) {
        LensAt(kind, net, x, i, k);
      }
    }
  }

  /** Where x sends a packet for dst: to dst if no other device steals it, to one of the thieves otherwise. */
  lemma Taker(kind: Kind, net: Network, x: Device, dst: Device) returns (t: Device)
    requires net.Valid() && x in net.devices && dst in net.devices && x != dst && !kind.Star? && net.subnet.len > 0
    ensures t in net.devices && t != x && NextHop(Peers(kind, net, x), dst.ip) == Some(t.publicKey)
    ensures t == dst <==> Thieves(kind, net, dst) <= {x}
    ensures t != dst ==> t in Thieves(kind, net, dst)
  {
    hide Peers; hide Steals; hide Winner; hide Network.Valid; hide Except;
    SameId(net, x, dst);
    var i := IndexOfOther(net, x.id, dst);
    var others := net.Others(x.id);
    var w := TakerAt(kind, net, x, i);
    OthersAre(net, x.id);
    KeysOfPlan(kind, net, x, w);
    t := others[w];
    if w == i {
      forall u | u in net.devices && u != x ensures !Steals(kind, net, u, dst) {
        SameId(net, u, x);
        var k := IndexOfOther(net, x.id, u);
        assert !Steals(kind, net, others[k], dst);
      }
      assert Thieves(kind, net, dst) <= {x};
    } else {
      OthersDiffer(net, x.id, i, w);
      assert t in Thieves(kind, net, dst) && t !in {x};
    }
  }

  lemma OthersDiffer(net: Network, id: string, i: nat, k: nat)
    requires net.Valid() && i < |net.Others(id)| && k < |net.Others(id)| && i != k
    ensures net.Others(id)[i] != net.Others(id)[k]
  {
    OthersAre(net, id);
  }

  // ----- The whole way

  /** When two devices steal a packet, every other device hands it to one of them, and it never arrives. */
  lemma {:induction false} TwoThievesKeepIt(kind: Kind, net: Network, x: Device, dst: Device, limit: nat)
    requires net.Valid() && x in net.devices && dst in net.devices && x != dst && !kind.Star? && net.subnet.len > 0
    requires |Thieves(kind, net, dst)| >= 2
    ensures Hops(kind, net, x, dst, limit) == None
    decreases limit
  {
    hide Thieves; hide Hops; hide Peers; hide Network.Valid;
    if limit == 0 {
      NoHops(kind, net, dst);
    } else {
      var t := Taker(kind, net, x, dst);
      SubsetSize(Thieves(kind, net, dst), {x});
      TwoThievesKeepIt(kind, net, t, dst, limit - 1);
      HopOn(kind, net, x, t, dst, limit);
    }
  }

  lemma SubsetSize(a: set<Device>, b: set<Device>)
    ensures a <= b ==> |a| <= |b|
  {
    if a <= b {
      assert b == a + (b - a);
    }
  }

  lemma Arrived(kind: Kind, net: Network, dst: Device, limit: nat)
    ensures Hops(kind, net, dst, dst, limit) == Some(0)
  {
  }

  lemma TheOnly(a: set<Device>, t: Device)
    requires t in a && |a| == 1
    ensures a == {t}
  {
    assert |a - {t}| == 0;
  }

  /**
   * The law of mesh and hybrid, for any routes: a packet takes one hop if nobody but its sender could steal it, two hops
   * if exactly one device could and that is not the sender, and otherwise never arrives.
   */
  lemma HopsExactly(kind: Kind, net: Network, src: Device, dst: Device, limit: nat)
    requires net.Valid() && src in net.devices && dst in net.devices && src != dst
    requires !kind.Star? && net.subnet.len > 0 && limit >= 2
    ensures var thieves := Thieves(kind, net, dst);
      Hops(kind, net, src, dst, limit) ==
        if thieves <= {src} then Some(1) else if |thieves| == 1 then Some(2) else None
  {
    hide Thieves; hide Hops; hide Peers; hide Network.Valid;
    var thieves := Thieves(kind, net, dst);
    var t := Taker(kind, net, src, dst);
    HopOn(kind, net, src, t, dst, limit);
    if t == dst {
      Arrived(kind, net, dst, limit - 1);
    } else if |thieves| == 1 {
      TheOnly(thieves, t);
      var u := Taker(kind, net, t, dst);
      HopOn(kind, net, t, u, dst, limit - 1);
      Arrived(kind, net, dst, limit - 2);
    } else {
      TwoThievesKeepIt(kind, net, src, dst, limit);
    }
  }

  /** In the network in which bernard advertises alice's address, the hub's packets for alice arrive through bernard. */
  lemma OneThiefDetours()
    ensures var net := NetworkWith(HostPrefix(ALICE.ip));
      && Thieves(Mesh, net, ALICE) == {BERNARD}
      && Hops(Mesh, net, HUB, ALICE, 2) == Some(2)
  {
    var route := HostPrefix(ALICE.ip);
    var net := NetworkWith(route);
    NetworkIsValid(route);
    HostContainsOnly(ALICE.ip, ALICE.ip);
    OneRouteLen(route, ALICE.ip);
    OtherRoutes(route, ALICE.ip);
    BernardIsLater();
    assert net.devices == [HUB, ALICE, BERNARD];
    hide RouteLen; hide Later; hide Network.Valid;
    assert Thieves(Mesh, net, ALICE) == {BERNARD};
    assert HUB != BERNARD && HUB != ALICE by { assert |HUB.id| == 3; }
    HopsExactly(Mesh, net, HUB, ALICE, 2);
  }

  lemma BernardIsLater()
    ensures Later([HUB, ALICE, BERNARD], ALICE, BERNARD) && ALICE != BERNARD
  {
    var ds := [HUB, ALICE, BERNARD];
    assert ds[1..] == [ALICE, BERNARD] && ds[1..][1..] == [BERNARD];
    assert |ALICE.id| == 5 && |BERNARD.id| == 7;
  }

  lemma OtherRoutes(route: Prefix, ip: Ip)
    ensures RouteLen(NetworkWith(route), HUB, ip) == RouteLen(NetworkWith(route), ALICE, ip) == -1
  {
    assert |HUB.id| == 3 && |ALICE.id| == 5 && |BERNARD.id| == 7;
    assert MatchLen([], ip) == -1;
  }

  // ----- The receiver's check

  /**
   * How many hops a packet from src for dst takes from a device, when every receiver drops it unless the longest match
   * for its source address is the peer that it came from.
   */
  function CheckedHops(kind: Kind, net: Network, src: Device, at: Device, dst: Device, limit: nat): Option<nat>
    decreases limit
  {
    if at == dst then Some(0)
    else if limit == 0 then None
    else
      match NextHop(Peers(kind, net, at), dst.ip)
      case None => None
      case Some(key) =>
        match Holder(net.devices, key)
        case None => None
        case Some(d) =>
          if NextHop(Peers(kind, net, d), src.ip) != Some(at.publicKey) then None
          else
            match CheckedHops(kind, net, src, d, dst, limit - 1)
            case None => None
            case Some(n) => Some(n + 1)
  }

  lemma CheckedHopOn(kind: Kind, net: Network, src: Device, a: Device, b: Device, dst: Device, limit: nat)
    requires net.Valid() && b in net.devices && a != dst && limit > 0
    requires NextHop(Peers(kind, net, a), dst.ip) == Some(b.publicKey)
    ensures CheckedHops(kind, net, src, a, dst, limit) ==
      if NextHop(Peers(kind, net, b), src.ip) != Some(a.publicKey) then None
      else
        match CheckedHops(kind, net, src, b, dst, limit - 1)
        case None => None
        case Some(n) => Some(n + 1)
  {
    hide Peers; hide NextHop; hide Holder; hide Network.Valid;
    HolderUnique(net, b);
  }

  lemma CheckedArrived(kind: Kind, net: Network, src: Device, dst: Device, limit: nat)
    ensures CheckedHops(kind, net, src, dst, dst, limit) == Some(0)
  {
  }

  /** The check only drops packets. */
  lemma {:induction false} CheckedIsLess(kind: Kind, net: Network, src: Device, at: Device, dst: Device, limit: nat)
    ensures CheckedHops(kind, net, src, at, dst, limit).Some? ==>
      CheckedHops(kind, net, src, at, dst, limit) == Hops(kind, net, at, dst, limit)
    decreases limit
  {
    hide Peers; hide NextHop;
    if at != dst && limit > 0 {
      var key := NextHop(Peers(kind, net, at), dst.ip);
      if key.Some? && Holder(net.devices, key.value).Some? {
        CheckedIsLess(kind, net, src, Holder(net.devices, key.value).value, dst, limit - 1);
      }
    }
  }

  /**
   * The law with the receivers' check, for any routes: a direct packet is accepted if and only if nobody but its
   * receiver could steal the packets of its sender, and a detour is if and only if the same device alone could steal
   * both ways.
   */
  lemma CheckedExactly(kind: Kind, net: Network, src: Device, dst: Device, limit: nat)
    requires net.Valid() && src in net.devices && dst in net.devices && src != dst
    requires !kind.Star? && net.subnet.len > 0 && limit >= 2
    ensures var to, back := Thieves(kind, net, dst), Thieves(kind, net, src);
      CheckedHops(kind, net, src, src, dst, limit) ==
        if to <= {src} then (if back <= {dst} then Some(1) else None)
        else if |to| == 1 && back == to then Some(2)
        else None
  {
    hide Thieves; hide Hops; hide CheckedHops; hide Peers; hide NextHop; hide Network.Valid;
    var to := Thieves(kind, net, dst);
    if to <= {src} {
      DirectAnswer(kind, net, src, dst, limit);
    } else if |to| == 1 {
      DetourAnswer(kind, net, src, dst, limit);
    } else {
      HopsExactly(kind, net, src, dst, limit);
      CheckedIsLess(kind, net, src, src, dst, limit);
    }
  }

  lemma DirectAnswer(kind: Kind, net: Network, src: Device, dst: Device, limit: nat)
    requires net.Valid() && src in net.devices && dst in net.devices && src != dst
    requires !kind.Star? && net.subnet.len > 0 && limit >= 2 && Thieves(kind, net, dst) <= {src}
    ensures CheckedHops(kind, net, src, src, dst, limit) == if Thieves(kind, net, src) <= {dst} then Some(1) else None
  {
    hide Thieves; hide CheckedHops; hide Peers; hide NextHop; hide Network.Valid;
    var t := Taker(kind, net, src, dst);
    CheckedHopOn(kind, net, src, src, dst, dst, limit);
    Answer(kind, net, dst, src, src);
    CheckedArrived(kind, net, src, dst, limit - 1);
  }

  lemma DetourAnswer(kind: Kind, net: Network, src: Device, dst: Device, limit: nat)
    requires net.Valid() && src in net.devices && dst in net.devices && src != dst
    requires !kind.Star? && net.subnet.len > 0 && limit >= 2
    requires !(Thieves(kind, net, dst) <= {src}) && |Thieves(kind, net, dst)| == 1
    ensures CheckedHops(kind, net, src, src, dst, limit) ==
      if Thieves(kind, net, src) == Thieves(kind, net, dst) then Some(2) else None
  {
    hide Thieves; hide CheckedHops; hide Peers; hide NextHop; hide Network.Valid;
    var t := Taker(kind, net, src, dst);
    TheOnly(Thieves(kind, net, dst), t);
    var u := Taker(kind, net, t, dst);
    CheckedHopOn(kind, net, src, src, t, dst, limit);
    Answer(kind, net, t, src, src);
    CheckedHopOn(kind, net, src, t, dst, dst, limit - 1);
    Answer(kind, net, dst, src, t);
    CheckedArrived(kind, net, src, dst, limit - 2);
  }

  // When the longest match at x for the address of src is the peer of y.
  lemma Answer(kind: Kind, net: Network, x: Device, src: Device, y: Device)
    requires net.Valid() && x in net.devices && src in net.devices && y in net.devices && x != src
    requires !kind.Star? && net.subnet.len > 0
    ensures var back := Thieves(kind, net, src);
      && (y == src ==> (NextHop(Peers(kind, net, x), src.ip) == Some(y.publicKey) <==> back <= {x}))
      && (y != src && back <= {y} && x != y ==>
            (NextHop(Peers(kind, net, x), src.ip) == Some(y.publicKey) <==> back == {y}))
  {
    hide Thieves; hide Peers; hide Network.Valid;
    var t := Taker(kind, net, x, src);
    DistinctKeysOf(net, t, y);
  }

  /** Under the conditions of Delivery no receiver drops a packet, in star, mesh or hybrid. */
  lemma DeliveryIsAccepted(kind: Kind, net: Network, src: Device, dst: Device)
    requires net.Valid() && net.subnet.len > 0 && RoutesOutside(net)
    requires src in net.devices && dst in net.devices && src != dst
    requires kind.Star? ==> net.Find(net.serverId).Some?
    ensures CheckedHops(kind, net, src, src, dst, 2) == Hops(kind, net, src, dst, 2)
  {
    hide Hops; hide CheckedHops; hide Peers; hide Network.Valid; hide RoutesOutside;
    Delivery(kind, net, src, dst);
    if kind.Star? {
      var server := net.Find(net.serverId).value;
      SameId(net, src, server);
      SameId(net, dst, server);
      if src == server || dst == server {
        NextInStar(net, server, src, dst);
        NextInStar(net, server, dst, src);
        CheckedHopOn(kind, net, src, src, dst, dst, 2);
        CheckedArrived(kind, net, src, dst, 1);
      } else {
        NextInStar(net, server, src, dst);
        NextInStar(net, server, server, src);
        NextInStar(net, server, server, dst);
        NextInStar(net, server, dst, src);
        CheckedHopOn(kind, net, src, src, server, dst, 2);
        CheckedHopOn(kind, net, src, server, dst, dst, 1);
        CheckedArrived(kind, net, src, dst, 0);
      }
    } else {
      NoThieves(kind, net, dst);
      NoThieves(kind, net, src);
      CheckedExactly(kind, net, src, dst, 2);
    }
  }

  lemma NoThieves(kind: Kind, net: Network, dst: Device)
    requires net.Valid() && RoutesOutside(net) && dst in net.devices && !kind.Star?
    ensures Thieves(kind, net, dst) == {}
  {
    forall t | t in net.devices ensures !Steals(kind, net, t, dst) {
      RoutesAreShort(net, t, dst.ip);
    }
  }

  // The next hop in star, when routes are short.
  lemma NextInStar(net: Network, server: Device, a: Device, b: Device)
    requires net.Valid() && net.subnet.len > 0 && RoutesOutside(net) && net.Find(net.serverId) == Some(server)
    requires a in net.devices && b in net.devices && a != b
    ensures NextHop(Peers(Star, net, a), b.ip) == Some(if a == server then b.publicKey else server.publicKey)
  {
    hide Winner; hide Peers; hide RouteLen;
    if a == server {
      SameId(net, b, server);
      var i := IndexOfOther(net, net.serverId, b);
      OthersAre(net, net.serverId);
      RoutesOfOthersAreShort(net, net.serverId, b.ip);
      HubWinnerIff(net, server, i);
      HubLens(net, server, i);
    } else {
      ClientSendsToHub(net, server, a, b.ip);
    }
  }
}
