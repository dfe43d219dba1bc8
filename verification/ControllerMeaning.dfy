/** The controller's desired peers and records in literal terms. */
module ControllerMeaning {

  import opened Options
  import opened WgController

  // A device that is an active client of the interface, with a key and an address.
  predicate IsServed(d: DeviceRow, name: string) {
    && d.isActive && d.publicKey.Some? && d.ipAddress.Some?
    && d.interfaceName == name && d.name != "__midscale_server__"
  }

  /** The desired peer of a device: its key, its address as /32, then its approved routes. */
  predicate IsPeerOf(p: DesiredPeer, d: DeviceRow, routes: map<string, seq<string>>)
    requires d.ipAddress.Some?
  {
    && Some(p.publicKey) == d.publicKey && !p.remove
    && |p.allowedIps| > 0 && p.allowedIps[0] == d.ipAddress.value + "/32"
    && (d.id in routes ==> p.allowedIps[1..] == routes[d.id])
    && (d.id !in routes ==> p.allowedIps[1..] == [])
  }

  /** A peer is desired exactly when it is the peer of a served device. */
  lemma {:induction false} DesiredInFields(rows: seq<DeviceRow>, routes: map<string, seq<string>>, name: string)
    ensures forall p :: p in DesiredPeers(rows, routes, name) <==>
      exists d | d in rows && IsServed(d, name) :: IsPeerOf(p, d, routes)
  {
    DesiredContents(rows, routes, name);
    forall d, p: DesiredPeer | d in rows ensures (IsServed(d, name) <==> Managed(d, name))
      && (Managed(d, name) ==> (IsPeerOf(p, d, routes) <==> p == DesiredOf(d, routes)))
    {
      if Managed(d, name) { PeerIs(p, d, routes); }
    }
    hide IsServed; hide Managed; hide IsPeerOf; hide DesiredOf; hide DesiredPeers;
  }

  lemma PeerIs(p: DesiredPeer, d: DeviceRow, routes: map<string, seq<string>>)
    requires d.publicKey.Some? && d.ipAddress.Some?
    ensures IsPeerOf(p, d, routes) <==> p == DesiredOf(d, routes)
  {
    var first, rest := [d.ipAddress.value + "/32"], if d.id in routes then routes[d.id] else [];
    assert (first + rest)[0] == first[0] && (first + rest)[1..] == rest;
    if IsPeerOf(p, d, routes) {
      assert p.allowedIps == [p.allowedIps[0]] + p.allowedIps[1..];
    }
  }

  /** There are as many desired peers as served devices, in the order of the rows. */
  lemma DesiredInOrder(rows: seq<DeviceRow>, d: DeviceRow, routes: map<string, seq<string>>, name: string)
    ensures DesiredPeers([], routes, name) == []
    ensures !IsServed(d, name) ==> DesiredPeers(rows + [d], routes, name) == DesiredPeers(rows, routes, name)
    ensures IsServed(d, name) ==>
      exists p :: IsPeerOf(p, d, routes) && DesiredPeers(rows + [d], routes, name) == DesiredPeers(rows, routes, name) + [p]
  {
    assert (rows + [d])[..|rows|] == rows;
    if IsServed(d, name) {
      PeerIs(DesiredOf(d, routes), d, routes);
    }
  }

  /** Adding a peer writes a record with its key and addresses and nothing else, in place of one with its key. */
  lemma AddedIs(peers: Peers, p: DesiredPeer, q: WgPeer)
    requires Distinct(peers)
    ensures var made := WgPeer(p.publicKey, p.allowedIps, None, None, None, 0, 0);
      && made in Added(peers, NewPeer(p))
      && (q in Added(peers, NewPeer(p)) <==> q == made || (q in peers && q.publicKey != p.publicKey))
  {
    AddedKeys(peers, NewPeer(p));
    AddedDistinct(peers, NewPeer(p));
    if q in Added(peers, NewPeer(p)) && q.publicKey == p.publicKey {
      UniqueKey(Added(peers, NewPeer(p)), q, NewPeer(p));
    }
    hide Added; hide Distinct;
  }

  /** What a cycle adds and removes, by key. */
  lemma CycleChanges(peers: Peers, desired: seq<DesiredPeer>, key: string)
    ensures (exists p | p in ToAdd(desired, Keys(peers)) :: p.publicKey == key) <==>
      (exists p | p in desired :: p.publicKey == key && !p.remove) && forall q | q in peers :: q.publicKey != key
    ensures key in RemovedKeys(desired, Keys(peers)) <==>
      && (exists q | q in peers :: q.publicKey == key)
      && ((exists p | p in desired :: p.publicKey == key && p.remove)
          || forall p | p in desired :: p.publicKey == key ==> p.remove)
  {
    KeysIn(peers);
    WantedKeysIn(desired);
    UnwantedKeysIn(desired);
    hide Keys; hide WantedKeys; hide UnwantedKeys; hide ToAdd;
    if exists p | p in desired :: p.publicKey == key && !p.remove {
      var p :| p in desired && p.publicKey == key && !p.remove;
      assert key !in Keys(peers) ==> p in ToAdd(desired, Keys(peers));
    }
  }

  lemma UnwantedKeysIn(desired: seq<DesiredPeer>)
    ensures forall k :: k in UnwantedKeys(desired) <==> exists p | p in desired :: p.remove && p.publicKey == k
  {
    forall k | k in UnwantedKeys(desired) ensures exists p | p in desired :: p.remove && p.publicKey == k {
      var i :| 0 <= i < |desired| && desired[i].remove && desired[i].publicKey == k;
      assert desired[i] in desired;
    }
    forall p | p in desired && p.remove ensures p.publicKey in UnwantedKeys(desired) {
      var i :| 0 <= i < |desired| && desired[i] == p;
    }
  }
}
