/** Address allocation, and the handlers that create networks and devices. */
module Ipam {

  import opened Options
  import opened Address
  import DnsRecords

  // ----- Hosts of a subnet

  /** list(IPv4Network.hosts()): all but the network and broadcast addresses, with the /31 and /32 exceptions. */
  function FirstHost(p: Prefix): nat {
    if p.len >= 31 then DnsRecords.NetworkAddress(p) else DnsRecords.NetworkAddress(p) + 1
  }

  function HostCount(p: Prefix): (n: nat)
    ensures n > 0
  {
    SizeFrom2(p);
    if p.len == 32 then 1 else if p.len == 31 then 2 else Size(p) - 2
  }

  lemma SizeFrom2(p: Prefix)
    ensures p.len <= 30 ==> Size(p) >= 4
    ensures p.len == 31 ==> Size(p) == 2
    ensures p.len == 32 ==> Size(p) == 1
  {
    if p.len <= 30 {
      Pow2Adds(2, 30 - p.len);
      assert Pow2(2) == 4 && Size(p) == 4 * Pow2(30 - p.len);
    } else if p.len == 31 {
      assert Pow2(1) == 2;
    }
  }

  /** The hosts are addresses of the subnet. */
  lemma HostsInSubnet(p: Prefix, k: nat)
    requires k < HostCount(p)
    ensures FirstHost(p) + k < ADDRESSES && Contains(p, FirstHost(p) + k)
  {
    SizeFrom2(p);
    var size, q := Size(p), p.addr / Size(p);
    var base := DnsRecords.NetworkAddress(p);
    var offset := FirstHost(p) + k - base;
    Euclid(p.addr, size);
    BelowTop(p);
    hide Pow2;
    DivUnique(base + offset, size, q, offset);
  }

  // The last address of a subnet is a 32-bit address.
  lemma BelowTop(p: Prefix)
    ensures DnsRecords.NetworkAddress(p) + Size(p) <= ADDRESSES
  {
    Pow2Of32();
    Pow2Adds(p.len, 32 - p.len);
    hide Pow2;
    BlockBound(p.addr, Pow2(p.len), Size(p));
  }

  lemma BlockBound(n: nat, blocks: nat, size: nat)
    requires size > 0 && n < blocks * size
    ensures n - n % size + size <= blocks * size
  {
    var q := n / size;
    Euclid(n, size);
    assert size * (blocks - q) == blocks * size - size * q;
    MultipleBounds(size, blocks - q);
  }

  predicate IsHost(p: Prefix, ip: nat) {
    FirstHost(p) <= ip < FirstHost(p) + HostCount(p)
  }

  /** The hosts of a /p network, p at most 30, are its addresses except the first and the last. */
  lemma HostsAre(p: Prefix, ip: Ip)
    requires p.len <= 30
    ensures IsHost(p, ip) <==> Contains(p, ip) && ip != DnsRecords.NetworkAddress(p) && ip != DnsRecords.NetworkAddress(p) + Size(p) - 1
  {
    SizeFrom2(p);
    var size, q, base := Size(p), p.addr / Size(p), DnsRecords.NetworkAddress(p);
    Euclid(p.addr, size);
    Euclid(ip, size);
    if base <= ip < base + size {
      DivUnique(ip, size, q, ip - base);
    }
  }

  // ----- Allocation

  /** The least host that is neither the gateway nor used; None stands for a 409. */
  ghost predicate IsAllocation(p: Prefix, used: set<nat>, r: Option<nat>) {
    match r
    case Some(ip) =>
      && IsHost(p, ip) && ip != FirstHost(p) && ip !in used
      && forall h | FirstHost(p) < h < ip :: h in used
    case None => forall h | IsHost(p, h) && h != FirstHost(p) :: h in used
  }

  method AllocateIp(p: Prefix, used: set<nat>) returns (r: Option<nat>)
    ensures r == Allocate(p, used) && IsAllocation(p, used, r)
  {
    AllocateIsLeast(p, used, 0);
    var gateway := FirstHost(p);
    for k := 0 to HostCount(p)
      invariant Allocate(p, used) == AllocateFrom(p, used, k)
    {
      var host := FirstHost(p) + k;
      if host == gateway {
        continue;
      }
      if host !in used {
        return Some(host);
      }
    }
    r := None;
  }

  function AllocateFrom(p: Prefix, used: set<nat>, k: nat): Option<nat>
    decreases HostCount(p) - k
  {
    if k >= HostCount(p) then None
    else if k == 0 || FirstHost(p) + k in used then AllocateFrom(p, used, k + 1)
    else Some(FirstHost(p) + k)
  }

  function Allocate(p: Prefix, used: set<nat>): Option<nat> {
    AllocateFrom(p, used, 0)
  }

  lemma {:induction false} AllocateIsLeast(p: Prefix, used: set<nat>, k: nat)
    requires forall h | FirstHost(p) < h < FirstHost(p) + k && IsHost(p, h) :: h in used
    ensures IsAllocation(p, used, AllocateFrom(p, used, k))
    decreases HostCount(p) - k
  {
    if k < HostCount(p) && (k == 0 || FirstHost(p) + k in used) {
      AllocateIsLeast(p, used, k + 1);
    }
  }

  // ----- The tables

  type NetId = nat
  type DeviceId = nat

  datatype Device = Device(id: DeviceId, net: NetId, ip: Option<nat>, isServer: bool)

  datatype PreAuthKey = PreAuthKey(net: NetId, reusable: bool, expiresAt: real, usedBy: seq<DeviceId>)

  datatype State = State(networks: map<NetId, Prefix>, devices: seq<Device>, keys: map<string, PreAuthKey>)

  const EMPTY := State(map[], [], map[])

  // A device id is drawn by the caller. CreateDevice stands for create_device and create_node_device.
  datatype Op =
    | CreateNetwork(net: NetId, subnet: Prefix, id: DeviceId)
    | CreateDevice(net: NetId, id: DeviceId)
    | CreateKey(key: string, net: NetId, reusable: bool, expiresAt: real)
    | Enroll(key: string, id: DeviceId, now: real)
    | Register(key: string, id: DeviceId, now: real)
    | Release(id: DeviceId)

  function UsedIps(devices: seq<Device>, net: NetId): set<nat> {
    set i | 0 <= i < |devices| && devices[i].net == net && devices[i].ip.Some? :: devices[i].ip.value
  }

  /** The state with a new client device in the network, or None when no address is free. */
  function WithClient(s: State, net: NetId, id: DeviceId): Option<State>
    requires net in s.networks
  {
    var ip := Allocate(s.networks[net], UsedIps(s.devices, net));
    if ip.None? then None else Some(s.(devices := s.devices + [Device(id, net, ip, false)]))
  }

  // A non-reusable key is deleted by its use, a reusable one remembers it.
  function Consume(keys: map<string, PreAuthKey>, key: string, id: DeviceId): map<string, PreAuthKey>
    requires key in keys
  {
    if keys[key].reusable then keys[key := keys[key].(usedBy := keys[key].usedBy + [id])] else keys - {key}
  }

  // Whether enroll_by_key and register_device go on to allocate an address.
  predicate Admits(s: State, key: string, now: real, checkUsed: bool) {
    && key in s.keys && now <= s.keys[key].expiresAt
    && !(checkUsed && !s.keys[key].reusable && s.keys[key].usedBy != [])
    && s.keys[key].net in s.networks
  }

  function WithKeyedClient(s: State, key: string, id: DeviceId): State
    requires key in s.keys && s.keys[key].net in s.networks
  {
    match WithClient(s, s.keys[key].net, id)
    case None => s
    case Some(t) => t.(keys := Consume(s.keys, key, id))
  }

  function Cleared(devices: seq<Device>, id: DeviceId): (r: seq<Device>)
    ensures |r| == |devices|
    ensures forall i | 0 <= i < |r| :: r[i] == if devices[i].id == id then devices[i].(ip := None) else devices[i]
  {
    seq(|devices|, i requires 0 <= i < |devices| => if devices[i].id == id then devices[i].(ip := None) else devices[i])
  }

  /** One request; a refused one changes nothing. */
  function Apply(s: State, op: Op): State {
    match op
    case CreateNetwork(net, subnet, id) =>
      if net in s.networks then s
      else s.(networks := s.networks[net := subnet], devices := s.devices + [Device(id, net, Some(FirstHost(subnet)), true)])
    case CreateDevice(net, id) =>
      if net !in s.networks || WithClient(s, net, id).None? then s else WithClient(s, net, id).value
    case CreateKey(key, net, reusable, expiresAt) =>
      if key in s.keys || net !in s.networks then s
      else s.(keys := s.keys[key := PreAuthKey(net, reusable, expiresAt, [])])
    case Enroll(key, id, now) => if Admits(s, key, now, true) then WithKeyedClient(s, key, id) else s
    case Register(key, id, now) => if Admits(s, key, now, false) then WithKeyedClient(s, key, id) else s
    case Release(id) => s.(devices := Cleared(s.devices, id))
  }

  function Run(ops: seq<Op>): State {
    if ops == [] then EMPTY else Apply(Run(ops[..|ops| - 1]), ops[|ops| - 1])
  }

  class Handlers {
    var networks: map<NetId, Prefix>
    var devices: seq<Device>
    var keys: map<string, PreAuthKey>

    function View(): State
      reads this
    {
      State(networks, devices, keys)
    }

    constructor ()
      ensures View() == EMPTY
    {
      networks := map[];
      devices := [];
      keys := map[];
    }

    method CreateNetworkWithServer(net: NetId, subnet: Prefix, id: DeviceId)
      modifies this
      ensures View() == Apply(old(View()), CreateNetwork(net, subnet, id))
    {
      if net !in networks {
        networks := networks[net := subnet];
        devices := devices + [Device(id, net, Some(FirstHost(subnet)), true)];
      }
    }

    method CreatePreAuthKey(key: string, net: NetId, reusable: bool, expiresAt: real)
      modifies this
      ensures View() == Apply(old(View()), CreateKey(key, net, reusable, expiresAt))
    {
      if key !in keys && net in networks {
        keys := keys[key := PreAuthKey(net, reusable, expiresAt, [])];
      }
    }

    method ReleaseIp(id: DeviceId)
      modifies this
      ensures View() == Apply(old(View()), Release(id))
    {
      ghost var all := Cleared(devices, id);
      for i := 0 to |devices|
        invariant |devices| == |all| && networks == old(networks) && keys == old(keys)
        invariant forall k | 0 <= k < |all| :: devices[k] == if k < i then all[k] else old(devices)[k]
      {
        if devices[i].id == id {
          devices := devices[i := devices[i].(ip := None)];
        }
      }
      assert devices == all;
    }

    // Answers whether an address was free.
    method AddClient(net: NetId, id: DeviceId) returns (added: bool)
      requires net in networks
      modifies this`devices
      ensures added <==> WithClient(old(View()), net, id).Some?
      ensures View() == if added then WithClient(old(View()), net, id).value else old(View())
    {
      var ip := AllocateIp(networks[net], UsedIps(devices, net));
      added := ip.Some?;
      if added {
        devices := devices + [Device(id, net, ip, false)];
      }
    }

    method AddDevice(net: NetId, id: DeviceId) returns (added: bool)
      modifies this
      ensures View() == Apply(old(View()), CreateDevice(net, id))
      ensures added <==> |devices| == |old(devices)| + 1
    {
      if net !in networks {
        return false;
      }
      added := AddClient(net, id);
    }

    method EnrollByKey(key: string, id: DeviceId, now: real) returns (added: bool)
      modifies this
      ensures View() == Apply(old(View()), Enroll(key, id, now))
      ensures added <==> |devices| == |old(devices)| + 1
    {
      added := false;
      if key !in keys || keys[key].expiresAt < now {
        return;
      }
      if !keys[key].reusable && keys[key].usedBy != [] {
        return;
      }
      added := UseKey(key, id);
    }

    method RegisterDevice(key: string, id: DeviceId, now: real) returns (added: bool)
      modifies this
      ensures View() == Apply(old(View()), Register(key, id, now))
      ensures added <==> |devices| == |old(devices)| + 1
    {
      added := false;
      if key !in keys || keys[key].expiresAt < now {
        return;
      }
      added := UseKey(key, id);
    }

    method UseKey(key: string, id: DeviceId) returns (added: bool)
      requires key in keys
      modifies this
      ensures View() ==
        if old(keys[key].net in networks) then WithKeyedClient(old(View()), key, id) else old(View())
      ensures added <==> |devices| == |old(devices)| + 1
    {
      if keys[key].net !in networks {
        return false;
      }
      added := AddClient(keys[key].net, id);
      if added {
        if !keys[key].reusable {
          keys := keys - {key};
        } else {
          keys := keys[key := keys[key].(usedBy := keys[key].usedBy + [id])];
        }
      }
    }
  }

  // ----- Invariants of every run

  predicate DeviceGood(networks: map<NetId, Prefix>, d: Device) {
    && d.net in networks
    && (d.ip.Some? ==> IsHost(networks[d.net], d.ip.value))
    && (d.ip.Some? ==> (d.isServer <==> d.ip.value == FirstHost(networks[d.net])))
  }

  // No two devices of a network share an address.
  ghost predicate Unshared(devices: seq<Device>) {
    forall i, j | 0 <= i < j < |devices| && devices[i].net == devices[j].net && devices[i].ip.Some? ::
      devices[i].ip != devices[j].ip
  }

  /**
   * Every address is a host of its network's subnet, servers and only servers hold the first one, and no two devices
   * of a network share one.
   */
  ghost predicate Good(s: State) {
    && (forall i | 0 <= i < |s.devices| :: DeviceGood(s.networks, s.devices[i]))
    && Unshared(s.devices)
  }

  lemma AllocationIsGood(s: State, net: NetId, id: DeviceId)
    requires Good(s) && net in s.networks
    ensures WithClient(s, net, id).Some? ==> Good(WithClient(s, net, id).value)
  {
    var p, used := s.networks[net], UsedIps(s.devices, net);
    AllocateIsLeast(p, used, 0);
    var ip := Allocate(p, used);
    if ip.Some? {
      forall i | 0 <= i < |s.devices| && s.devices[i].net == net && s.devices[i].ip.Some?
        ensures s.devices[i].ip != ip
      {
        assert s.devices[i].ip.value in used;
      }
    }
    hide AllocateFrom; hide UsedIps;
  }

  lemma StepKeepsGood(s: State, op: Op)
    requires Good(s)
    ensures Good(Apply(s, op))
  {
    hide WithClient; hide HostCount; hide FirstHost;
    match op {
      case CreateNetwork(net, subnet, id) => if net !in s.networks { ServerIsGood(s, net, subnet, id); }
      case CreateDevice(net, id) => if net in s.networks { AllocationIsGood(s, net, id); }
      case CreateKey(_, _, _, _) =>
      case Enroll(key, id, now) => if Admits(s, key, now, true) { AllocationIsGood(s, s.keys[key].net, id); }
      case Register(key, id, now) => if Admits(s, key, now, false) { AllocationIsGood(s, s.keys[key].net, id); }
      case Release(id) =>
    }
  }

  lemma ServerIsGood(s: State, net: NetId, subnet: Prefix, id: DeviceId)
    requires Good(s) && net !in s.networks
    ensures Good(Apply(s, CreateNetwork(net, subnet, id)))
  {
    assert IsHost(subnet, FirstHost(subnet));
  }

  /** Over every run addresses are distinct hosts, and only servers hold the first host of their subnet. */
  lemma {:induction false} RunsStayGood(ops: seq<Op>)
    ensures Good(Run(ops))
  {
    hide Apply;
    if ops != [] {
      RunsStayGood(ops[..|ops| - 1]);
      StepKeepsGood(Run(ops[..|ops| - 1]), ops[|ops| - 1]);
    }
  }

  // ----- Capacity

  predicate IsClient(d: Device, net: NetId) {
    d.net == net && !d.isServer && d.ip.Some?
  }

  /** The clients of a network that hold an address. */
  function Clients(devices: seq<Device>, net: NetId): nat {
    if devices == [] then 0
    else Clients(devices[..|devices| - 1], net) + if IsClient(devices[|devices| - 1], net) then 1 else 0
  }

  function ClientIps(devices: seq<Device>, net: NetId): set<nat> {
    set i | 0 <= i < |devices| && IsClient(devices[i], net) :: devices[i].ip.value
  }

  lemma {:induction false} ClientsCounted(devices: seq<Device>, net: NetId)
    requires Unshared(devices)
    ensures |ClientIps(devices, net)| == Clients(devices, net)
  {
    if devices != [] {
      var init, last := devices[..|devices| - 1], devices[|devices| - 1];
      ClientsCounted(init, net);
      LastClient(devices, net);
    }
  }

  lemma LastClient(devices: seq<Device>, net: NetId)
    requires Unshared(devices) && devices != []
    ensures var init, last := devices[..|devices| - 1], devices[|devices| - 1];
      if IsClient(last, net) then
        ClientIps(devices, net) == ClientIps(init, net) + {last.ip.value} && last.ip.value !in ClientIps(init, net)
      else ClientIps(devices, net) == ClientIps(init, net)
  {
    var n, init := |devices| - 1, devices[..|devices| - 1];
    assert forall i | 0 <= i < n :: init[i] == devices[i];
    forall x | x in ClientIps(devices, net) ensures x in ClientIps(init, net) || (IsClient(devices[n], net) && x == devices[n].ip.value) {
      var i :| 0 <= i < |devices| && IsClient(devices[i], net) && devices[i].ip.value == x;
      assert i < n ==> IsClient(init[i], net);
    }
    forall x | x in ClientIps(init, net) ensures x in ClientIps(devices, net) {
      var i :| 0 <= i < n && IsClient(init[i], net) && init[i].ip.value == x;
      assert IsClient(devices[i], net);
    }
  }

  function HostsAfterFirst(p: Prefix): set<nat> {
    set h | FirstHost(p) < h < FirstHost(p) + HostCount(p) && IsHost(p, h)
  }

  lemma {:induction false} IntervalSize(lo: nat, hi: nat, s: set<nat>)
    requires lo <= hi && forall h :: h in s <==> lo <= h < hi
    ensures |s| == hi - lo
    decreases hi - lo
  {
    if lo < hi {
      IntervalSize(lo, hi - 1, s - {hi - 1});
    } else {
      assert s == {};
    }
  }

  lemma SubsetSize(a: set<nat>, b: set<nat>)
    requires a <= b
    ensures |a| <= |b| && (|a| == |b| <==> a == b)
  {
    assert b == a + (b - a);
  }

  /**
   * The number of clients never exceeds the number of hosts after the first, and an allocation is refused exactly
   * when it has been reached.
   */
  lemma RefusedExactlyWhenFull(s: State, net: NetId, id: DeviceId)
    requires Good(s) && net in s.networks
    ensures var capacity := HostCount(s.networks[net]) - 1;
      && Clients(s.devices, net) <= capacity
      && (WithClient(s, net, id).None? <==> Clients(s.devices, net) == capacity)
  {
    var p, used, ips := s.networks[net], UsedIps(s.devices, net), ClientIps(s.devices, net);
    var hosts := HostsAfterFirst(p);
    ClientsCounted(s.devices, net);
    IntervalSize(FirstHost(p) + 1, FirstHost(p) + HostCount(p), hosts);
    assert ips <= hosts;
    SubsetSize(ips, hosts);
    AllocateIsLeast(p, used, 0);
    forall h | h in hosts ensures h in used <==> h in ips {
      if h in used {
        var i :| 0 <= i < |s.devices| && s.devices[i].net == net && s.devices[i].ip.Some? && s.devices[i].ip.value == h;
        assert DeviceGood(s.networks, s.devices[i]);
      }
    }
    hide AllocateFrom; hide UsedIps; hide ClientIps; hide Clients; hide HostCount; hide FirstHost;
    if Allocate(p, used).Some? {
      assert Allocate(p, used).value in hosts;
    } else {
      assert forall h | h in hosts :: IsHost(p, h) && h in used;
    }
  }

  /** In any run, a network of prefix length at most 30 admits exactly 2^(32 - length) - 3 clients. */
  lemma NetworkCapacity(ops: seq<Op>, net: NetId, id: DeviceId)
    ensures var s := Run(ops);
      net in s.networks && s.networks[net].len <= 30 ==>
        var capacity := Pow2(32 - s.networks[net].len) - 3;
        && Clients(s.devices, net) <= capacity
        && (WithClient(s, net, id).Some? <==> Clients(s.devices, net) < capacity)
        && (WithClient(s, net, id).Some? ==> Clients(WithClient(s, net, id).value.devices, net) == Clients(s.devices, net) + 1)
  {
    hide Run; hide Good; hide WithClient; hide Clients;
    RunsStayGood(ops);
    if net in Run(ops).networks {
      RefusedExactlyWhenFull(Run(ops), net, id);
      ClientAdded(Run(ops), net, id);
    }
  }

  lemma ClientAdded(s: State, net: NetId, id: DeviceId)
    requires net in s.networks
    ensures WithClient(s, net, id).Some? ==>
      Clients(WithClient(s, net, id).value.devices, net) == Clients(s.devices, net) + 1
  {
    hide Allocate; hide UsedIps;
    if WithClient(s, net, id).Some? {
      var t := WithClient(s, net, id).value;
      assert t.devices[..|t.devices| - 1] == s.devices;
    }
  }

  // ----- Keys

  /** The steps of the run that added a device with the key, and those that issued the key. */
  function Uses(ops: seq<Op>, key: string): nat {
    if ops == [] then 0
    else
      var init, op := ops[..|ops| - 1], ops[|ops| - 1];
      Uses(init, key)
      + if (op.Enroll? || op.Register?) && op.key == key && |Run(ops).devices| > |Run(init).devices| then 1 else 0
  }

  function Issues(ops: seq<Op>, key: string): nat {
    if ops == [] then 0
    else
      var init, op := ops[..|ops| - 1], ops[|ops| - 1];
      Issues(init, key) + if op.CreateKey? && op.key == key && Run(ops) != Run(init) then 1 else 0
  }

  lemma KeyStep(s: State, op: Op, key: string)
    requires key in s.keys ==> !s.keys[key].reusable
    requires op.CreateKey? && op.key == key ==> !op.reusable
    ensures var t := Apply(s, op);
      var used := (op.Enroll? || op.Register?) && op.key == key && |t.devices| > |s.devices|;
      var issued := op.CreateKey? && op.key == key && t != s;
      && (key in t.keys ==> !t.keys[key].reusable)
      && (used ==> key in s.keys && key !in t.keys)
      && (issued ==> key !in s.keys && key in t.keys)
      && (!used && !issued ==> (key in t.keys <==> key in s.keys))
  {
    hide Allocate; hide UsedIps;
  }

  /**
   * A key that is only issued non-reusable yields at most as many devices as it was issued; issued once, it yields
   * at most one.
   */
  lemma {:induction false} KeyYieldsOneDevice(ops: seq<Op>, key: string)
    requires forall op | op in ops && op.CreateKey? && op.key == key :: !op.reusable
    ensures var s := Run(ops);
      && (key in s.keys ==> !s.keys[key].reusable)
      && Uses(ops, key) + (if key in s.keys then 1 else 0) == Issues(ops, key)
  {
    if ops != [] {
      var init, op := ops[..|ops| - 1], ops[|ops| - 1];
      assert op in ops && forall o | o in init :: o in ops;
      KeyYieldsOneDevice(init, key);
      KeyStep(Run(init), op, key);
      hide Apply;
    }
  }
}
