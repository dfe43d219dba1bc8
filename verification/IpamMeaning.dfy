/** Address allocation and keys in literal terms. */
module IpamMeaning {

  import opened Options
  import opened Address
  import DnsRecords
  import opened Ipam

  // ----- Hosts

  /** Up to length 30 the hosts are all addresses but that with host bits 0 and that with host bits 1. */
  lemma HostsInBits(p: Prefix, ip: Ip)
    requires p.len <= 30
    ensures var size := Pow2(32 - p.len);
      IsHost(p, ip) <==> ip / size == p.addr / size && ip % size != 0 && ip % size != size - 1
  {
    var size := Size(p);
    HostsAre(p, ip);
    NetworkIs(p);
    if Contains(p, ip) {
      Euclid(ip, size);
      Euclid(p.addr, size);
    }
    hide DnsRecords.NetworkAddress; hide IsHost; hide Pow2;
  }

  lemma NetworkIs(p: Prefix)
    ensures DnsRecords.NetworkAddress(p) == p.addr - p.addr % Pow2(32 - p.len)
  {
    hide Pow2;
  }

  /** A network of length 31 has two hosts, both of its addresses; one of length 32 has its only address. */
  lemma SmallNetworks(p: Prefix, ip: Ip)
    ensures p.len == 31 ==> (IsHost(p, ip) <==> ip / 2 == p.addr / 2)
    ensures p.len == 32 ==> (IsHost(p, ip) <==> ip == p.addr)
  {
    NetworkIs(p);
    Powers();
    hide DnsRecords.NetworkAddress; hide Pow2;
  }

  lemma Powers()
    ensures Pow2(0) == 1 && Pow2(1) == 2
  {
  }

  /** The first host is the lowest one. */
  lemma FirstIsLowest(p: Prefix, ip: Ip)
    requires IsHost(p, ip)
    ensures FirstHost(p) <= ip && IsHost(p, FirstHost(p))
  {
  }

  // ----- Requests

  /** A new network has one device, the server, at the first host; a known one is left alone. */
  lemma NetworkRequest(s: State, net: NetId, subnet: Prefix, id: DeviceId)
    ensures net in s.networks ==> Apply(s, CreateNetwork(net, subnet, id)) == s
    ensures net !in s.networks ==>
      Apply(s, CreateNetwork(net, subnet, id)) ==
      State(s.networks[net := subnet], s.devices + [Device(id, net, Some(FirstHost(subnet)), true)], s.keys)
  {
  }

  // The addresses of a network that are taken.
  function Taken(s: State, net: NetId): set<nat> {
    set i | 0 <= i < |s.devices| && s.devices[i].net == net && s.devices[i].ip.Some? :: s.devices[i].ip.value
  }

  // A host of the network that is neither the first nor taken, and the least such.
  predicate IsNext(s: State, net: NetId, ip: nat)
    requires net in s.networks
  {
    var p := s.networks[net];
    && IsHost(p, ip) && ip != FirstHost(p) && ip !in Taken(s, net)
    && forall h | FirstHost(p) < h < ip :: h in Taken(s, net)
  }

  // Every host but the first is taken.
  ghost predicate IsFull(s: State, net: NetId)
    requires net in s.networks
  {
    forall h | IsHost(s.networks[net], h) && h != FirstHost(s.networks[net]) :: h in Taken(s, net)
  }

  /** A new device gets the next address; when there is none nothing changes. */
  lemma DeviceRequest(s: State, net: NetId, id: DeviceId, ip: nat)
    requires net in s.networks
    ensures IsNext(s, net, ip) ==>
      Apply(s, CreateDevice(net, id)) == s.(devices := s.devices + [Device(id, net, Some(ip), false)])
    ensures IsFull(s, net) ==> Apply(s, CreateDevice(net, id)) == s
  {
    NextIs(s, net, id, ip);
    hide IsNext; hide WithClient; hide IsHost;
  }

  lemma NextIs(s: State, net: NetId, id: DeviceId, ip: nat)
    requires net in s.networks
    ensures IsNext(s, net, ip) ==> WithClient(s, net, id) == Some(s.(devices := s.devices + [Device(id, net, Some(ip), false)]))
    ensures IsFull(s, net) ==> WithClient(s, net, id) == None
  {
    var p := s.networks[net];
    assert UsedIps(s.devices, net) == Taken(s, net);
    AllocateIsLeast(p, Taken(s, net), 0);
    hide AllocateFrom; hide UsedIps;
    var r := Allocate(p, Taken(s, net));
    if IsNext(s, net, ip) && r.Some? {
      assert !(r.value < ip) && !(ip < r.value);
    }
  }

  /** A key request: the key is known, has not run out, and its network exists; a used non-reusable key may enroll no more. */
  predicate MayUse(s: State, key: string, now: real, enroll: bool) {
    && key in s.keys && s.keys[key].expiresAt >= now && s.keys[key].net in s.networks
    && (enroll && !s.keys[key].reusable ==> s.keys[key].usedBy == [])
  }

  /** Otherwise it is refused, as it is when no address is left. */
  lemma KeyRefused(s: State, key: string, id: DeviceId, now: real)
    ensures !MayUse(s, key, now, true) ==> Apply(s, Enroll(key, id, now)) == s
    ensures !MayUse(s, key, now, false) ==> Apply(s, Register(key, id, now)) == s
    ensures key in s.keys && s.keys[key].net in s.networks && IsFull(s, s.keys[key].net) ==>
      Apply(s, Enroll(key, id, now)) == Apply(s, Register(key, id, now)) == s
  {
    if key in s.keys && s.keys[key].net in s.networks {
      NextIs(s, s.keys[key].net, id, 0);
    }
    hide WithClient; hide IsHost;
  }

  /** A granted request adds a device at the next address; the key is deleted, or remembers the device if reusable. */
  lemma KeyGranted(s: State, key: string, id: DeviceId, now: real, enroll: bool, ip: nat)
    requires MayUse(s, key, now, enroll) && IsNext(s, s.keys[key].net, ip)
    ensures var k := s.keys[key];
      var s' := Apply(s, if enroll then Enroll(key, id, now) else Register(key, id, now));
      && s'.networks == s.networks && s'.devices == s.devices + [Device(id, k.net, Some(ip), false)]
      && (k.reusable ==> s'.keys == s.keys[key := PreAuthKey(k.net, true, k.expiresAt, k.usedBy + [id])])
      && (!k.reusable ==> s'.keys == map x | x in s.keys && x != key :: s.keys[x])
  {
    NextIs(s, s.keys[key].net, id, ip);
    hide WithClient; hide IsNext;
  }

  /** A new key belongs to a known network and has not been used. */
  lemma KeyRequest(s: State, key: string, net: NetId, reusable: bool, expiresAt: real)
    ensures key in s.keys || net !in s.networks ==> Apply(s, CreateKey(key, net, reusable, expiresAt)) == s
    ensures key !in s.keys && net in s.networks ==>
      Apply(s, CreateKey(key, net, reusable, expiresAt)) ==
      s.(keys := s.keys[key := PreAuthKey(net, reusable, expiresAt, [])])
  {
  }

  /** A release clears the address of the device, and of no other. */
  lemma ReleaseRequest(s: State, id: DeviceId, i: nat)
    requires i < |s.devices|
    ensures var s' := Apply(s, Release(id));
      && s'.networks == s.networks && s'.keys == s.keys && |s'.devices| == |s.devices|
      && s'.devices[i] == if s.devices[i].id == id then s.devices[i].(ip := None) else s.devices[i]
  {
  }
}
