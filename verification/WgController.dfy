/** The backend's reconciliation of a WireGuard interface with the devices in its database, on the mock adapter. */
module WgController {

  import opened Options
  import opened Seqs

  datatype WgPeer = WgPeer(
    publicKey: string,
    allowedIps: seq<string>,
    endpoint: Option<string>,
    persistentKeepalive: Option<int>,
    latestHandshake: Option<real>,
    transferRx: nat,
    transferTx: nat)

  datatype DesiredPeer = DesiredPeer(publicKey: string, allowedIps: seq<string>, remove: bool)

  datatype PeerDiff = PeerDiff(toAdd: seq<DesiredPeer>, toUpdate: seq<DesiredPeer>, toRemove: seq<DesiredPeer>)

  type Peers = seq<WgPeer>

  function Keys(peers: Peers): set<string> {
    set i | 0 <= i < |peers| :: peers[i].publicKey
  }

  function WantedKeys(desired: seq<DesiredPeer>): set<string> {
    set i | 0 <= i < |desired| && !desired[i].remove :: desired[i].publicKey
  }

  function UnwantedKeys(desired: seq<DesiredPeer>): set<string> {
    set i | 0 <= i < |desired| && desired[i].remove :: desired[i].publicKey
  }

  function Orphans(desired: seq<DesiredPeer>, actual: set<string>): set<string> {
    actual - WantedKeys(desired) - UnwantedKeys(desired)
  }

  // The desired peers to add, to update, and flagged for removal, in order.
  function ToAdd(desired: seq<DesiredPeer>, actual: set<string>): (r: seq<DesiredPeer>)
    ensures forall p :: p in r <==> p in desired && !p.remove && p.publicKey !in actual
  {
    if desired == [] then []
    else
      var init, p := desired[..|desired| - 1], desired[|desired| - 1];
      if !p.remove && p.publicKey !in actual then ToAdd(init, actual) + [p] else ToAdd(init, actual)
  }

  function ToUpdate(desired: seq<DesiredPeer>, actual: set<string>): (r: seq<DesiredPeer>)
    ensures forall p :: p in r <==> p in desired && !p.remove && p.publicKey in actual
  {
    if desired == [] then []
    else
      var init, p := desired[..|desired| - 1], desired[|desired| - 1];
      if !p.remove && p.publicKey in actual then ToUpdate(init, actual) + [p] else ToUpdate(init, actual)
  }

  function Flagged(desired: seq<DesiredPeer>, actual: set<string>): (r: seq<DesiredPeer>)
    ensures forall p :: p in r <==> p in desired && p.remove && p.publicKey in actual
  {
    if desired == [] then []
    else
      var init, p := desired[..|desired| - 1], desired[|desired| - 1];
      if p.remove && p.publicKey in actual then Flagged(init, actual) + [p] else Flagged(init, actual)
  }

  /** The orphans follow the flagged peers in some order, each once. */
  ghost predicate IsDiff(desired: seq<DesiredPeer>, actual: set<string>, diff: PeerDiff) {
    var flagged, orphans := Flagged(desired, actual), Orphans(desired, actual);
    && diff.toAdd == ToAdd(desired, actual)
    && diff.toUpdate == ToUpdate(desired, actual)
    && |diff.toRemove| == |flagged| + |orphans|
    && diff.toRemove[..|flagged|] == flagged
    && KeySet(diff.toRemove[|flagged|..]) == orphans
  }

  function KeySet(ps: seq<DesiredPeer>): set<string> {
    set i | 0 <= i < |ps| :: ps[i].publicKey
  }

  lemma KeySetAppend(ps: seq<DesiredPeer>, p: DesiredPeer)
    ensures KeySet(ps + [p]) == KeySet(ps) + {p.publicKey}
  {
    var all := ps + [p];
    assert all[|ps|] == p;
    assert forall i | 0 <= i < |ps| :: all[i] == ps[i];
    forall k | k in KeySet(ps) ensures k in KeySet(all) {
      var i :| 0 <= i < |ps| && ps[i].publicKey == k;
      assert all[i].publicKey == k;
    }
  }

  method ComputePeerDiff(desired: seq<DesiredPeer>, actual: set<string>) returns (diff: PeerDiff)
    ensures IsDiff(desired, actual, diff)
  {
    diff := PeerDiff([], [], []);
    for i := 0 to |desired|
      invariant diff == PeerDiff(ToAdd(desired[..i], actual), ToUpdate(desired[..i], actual), Flagged(desired[..i], actual))
    {
      var peer := desired[i];
      assert desired[..i + 1][..i] == desired[..i];
      if peer.remove {
        if peer.publicKey in actual {
          diff := diff.(toRemove := diff.toRemove + [peer]);
        }
      } else if peer.publicKey !in actual {
        diff := diff.(toAdd := diff.toAdd + [peer]);
      } else {
        diff := diff.(toUpdate := diff.toUpdate + [peer]);
      }
    }
    assert desired[..|desired|] == desired;
    ghost var flagged, orphans := diff.toRemove, Orphans(desired, actual);
    ghost var more: seq<DesiredPeer> := [];
    var rest := Orphans(desired, actual);
    while rest != {}
      invariant rest <= orphans
      invariant diff == PeerDiff(ToAdd(desired, actual), ToUpdate(desired, actual), flagged + more)
      invariant |more| + |rest| == |orphans| && KeySet(more) == orphans - rest
    {
      var key :| key in rest;
      var peer := DesiredPeer(key, [], true);
      KeySetAppend(more, peer);
      Assoc(flagged, more, [peer]);
      more := more + [peer];
      diff := diff.(toRemove := diff.toRemove + [peer]);
      rest := rest - {key};
    }
    Parts(flagged, more);
  }

  // ----- The mock adapter

  function NewPeer(p: DesiredPeer): WgPeer {
    WgPeer(p.publicKey, p.allowedIps, None, None, None, 0, 0)
  }

  // The first peer with the key is replaced; without one the peer is appended.
  function Added(peers: Peers, p: WgPeer): Peers {
    if peers == [] then [p]
    else if peers[0].publicKey == p.publicKey then [p] + peers[1..]
    else [peers[0]] + Added(peers[1..], p)
  }

  function Without(peers: Peers, keys: set<string>): (r: Peers)
    ensures forall p :: p in r <==> p in peers && p.publicKey !in keys
  {
    if peers == [] then []
    else if peers[0].publicKey in keys then Without(peers[1..], keys)
    else [peers[0]] + Without(peers[1..], keys)
  }

  lemma AddedStep(peers: Peers, i: nat, p: WgPeer)
    requires i < |peers|
    ensures peers[..i] + Added(peers[i..], p) ==
      if peers[i].publicKey == p.publicKey then peers[i := p] else peers[..i + 1] + Added(peers[i + 1..], p)
  {
    var rest := Added(peers[i + 1..], p);
    assert peers[i..][0] == peers[i] && peers[i..][1..] == peers[i + 1..];
    if peers[i].publicKey == p.publicKey {
      assert peers[..i] + ([p] + peers[i + 1..]) == peers[i := p];
    } else {
      Assoc(peers[..i], [peers[i]], rest);
      assert peers[..i] + [peers[i]] == peers[..i + 1];
    }
  }

  lemma AddedLast(peers: Peers, p: WgPeer)
    ensures peers[..|peers|] + Added(peers[|peers|..], p) == peers + [p]
  {
    assert peers[|peers|..] == [] && peers[..|peers|] == peers;
  }

  class WgMockAdapter {
    var interfaces: map<string, Peers>

    constructor ()
      ensures interfaces == map[]
    {
      interfaces := map[];
    }

    method AddPeer(name: string, p: DesiredPeer)
      modifies this
      ensures interfaces == old(interfaces)[name := Added(if name in old(interfaces) then old(interfaces)[name] else [], NewPeer(p))]
    {
      hide Added;
      var peers := if name in interfaces then interfaces[name] else [];
      var q := NewPeer(p);
      assert peers[0..] == peers;
      for i := 0 to |peers|
        invariant interfaces == old(interfaces)
        invariant Added(peers, q) == peers[..i] + Added(peers[i..], q)
      {
        AddedStep(peers, i, q);
        if peers[i].publicKey == p.publicKey {
          interfaces := interfaces[name := peers[i := q]];
          return;
        }
      }
      AddedLast(peers, q);
      interfaces := interfaces[name := peers + [q]];
    }

    method RemovePeer(name: string, key: string)
      modifies this
      ensures interfaces ==
        if name in old(interfaces) then old(interfaces)[name := Without(old(interfaces)[name], {key})] else old(interfaces)
    {
      if name in interfaces {
        interfaces := interfaces[name := Without(interfaces[name], {key})];
      }
    }
  }

  // ----- One reconciliation

  function AddAll(peers: Peers, ps: seq<DesiredPeer>): Peers {
    if ps == [] then peers else Added(AddAll(peers, ps[..|ps| - 1]), NewPeer(ps[|ps| - 1]))
  }

  /** The keys that a cycle removes. */
  function RemovedKeys(desired: seq<DesiredPeer>, actual: set<string>): set<string> {
    actual * UnwantedKeys(desired) + Orphans(desired, actual)
  }

  /** The peers after a cycle: those removed are gone, then the missing ones are added in order. */
  function Reconciled(peers: Peers, desired: seq<DesiredPeer>): Peers {
    AddAll(Without(peers, RemovedKeys(desired, Keys(peers))), ToAdd(desired, Keys(peers)))
  }

  method ReconcileInterface(adapter: WgMockAdapter, name: string, desired: seq<DesiredPeer>)
    returns (added: nat, removed: nat)
    modifies adapter
    ensures name !in old(adapter.interfaces) ==> adapter.interfaces == old(adapter.interfaces) && added == removed == 0
    ensures name in old(adapter.interfaces) ==>
      var peers := old(adapter.interfaces)[name];
      && adapter.interfaces == old(adapter.interfaces)[name := Reconciled(peers, desired)]
      && added == |ToAdd(desired, Keys(peers))|
      && removed == |Flagged(desired, Keys(peers))| + |Orphans(desired, Keys(peers))|
  {
    hide ToAdd; hide Without; hide Added; hide Orphans; hide Keys; hide Flagged; hide RemovedKeys; hide IsDiff;
    added, removed := 0, 0;
    if name !in adapter.interfaces {
      return;
    }
    ghost var all, peers := adapter.interfaces, adapter.interfaces[name];
    var actual := Keys(adapter.interfaces[name]);
    var diff := ComputePeerDiff(desired, actual);
    DiffLists(desired, actual, diff);
    WithoutNone(peers);
    for i := 0 to |diff.toRemove|
      invariant removed == i
      invariant adapter.interfaces == all[name := Without(peers, KeySet(diff.toRemove[..i]))]
    {
      assert diff.toRemove[..i + 1] == diff.toRemove[..i] + [diff.toRemove[i]];
      KeySetAppend(diff.toRemove[..i], diff.toRemove[i]);
      WithoutMore(peers, KeySet(diff.toRemove[..i]), diff.toRemove[i].publicKey);
      adapter.RemovePeer(name, diff.toRemove[i].publicKey);
      removed := removed + 1;
    }
    assert diff.toRemove[..|diff.toRemove|] == diff.toRemove;
    ghost var kept := Without(peers, RemovedKeys(desired, actual));
    for i := 0 to |diff.toAdd|
      invariant added == i
      invariant adapter.interfaces == all[name := AddAll(kept, diff.toAdd[..i])]
    {
      assert diff.toAdd[..i + 1][..i] == diff.toAdd[..i];
      adapter.AddPeer(name, diff.toAdd[i]);
      added := added + 1;
    }
    assert diff.toAdd[..|diff.toAdd|] == diff.toAdd;
  }

  lemma DiffLists(desired: seq<DesiredPeer>, actual: set<string>, diff: PeerDiff)
    requires IsDiff(desired, actual, diff)
    ensures diff.toAdd == ToAdd(desired, actual)
    ensures |diff.toRemove| == |Flagged(desired, actual)| + |Orphans(desired, actual)|
    ensures KeySet(diff.toRemove) == RemovedKeys(desired, actual)
  {
    hide KeySet; hide Flagged; hide Orphans; hide UnwantedKeys; hide ToAdd; hide ToUpdate;
    var flagged := Flagged(desired, actual);
    var more := diff.toRemove[|flagged|..];
    assert diff.toRemove == flagged + more;
    KeySetConcat(flagged, more);
    FlaggedKeys(desired, actual);
  }

  lemma FlaggedKeys(desired: seq<DesiredPeer>, actual: set<string>)
    ensures KeySet(Flagged(desired, actual)) == actual * UnwantedKeys(desired)
  {
    var flagged := Flagged(desired, actual);
    forall k | k in actual * UnwantedKeys(desired) ensures k in KeySet(flagged) {
      var i :| 0 <= i < |desired| && desired[i].remove && desired[i].publicKey == k;
      assert desired[i] in flagged;
      var j :| 0 <= j < |flagged| && flagged[j] == desired[i];
    }
    forall k | k in KeySet(flagged) ensures k in actual * UnwantedKeys(desired) {
      var j :| 0 <= j < |flagged| && flagged[j].publicKey == k;
      assert flagged[j] in desired;
    }
  }

  lemma KeySetConcat(a: seq<DesiredPeer>, b: seq<DesiredPeer>)
    ensures KeySet(a + b) == KeySet(a) + KeySet(b)
  {
    var s := a + b;
    forall k | k in KeySet(a) ensures k in KeySet(s) {
      var i :| 0 <= i < |a| && a[i].publicKey == k;
      assert s[i] == a[i];
    }
    forall k | k in KeySet(b) ensures k in KeySet(s) {
      var i :| 0 <= i < |b| && b[i].publicKey == k;
      assert s[|a| + i] == b[i];
    }
  }

  lemma {:induction false} WithoutNone(peers: Peers)
    ensures Without(peers, KeySet([])) == peers
  {
    if peers != [] {
      WithoutNone(peers[1..]);
    }
  }

  lemma {:induction false} WithoutMore(peers: Peers, keys: set<string>, key: string)
    ensures Without(Without(peers, keys), {key}) == Without(peers, keys + {key})
  {
    if peers != [] {
      WithoutMore(peers[1..], keys, key);
      Parts([peers[0]], Without(peers[1..], keys));
    }
  }

  // ----- Convergence

  ghost predicate Distinct(peers: Peers) {
    forall i, j | 0 <= i < j < |peers| :: peers[i].publicKey != peers[j].publicKey
  }

  lemma KeysIn(peers: Peers)
    ensures forall k :: k in Keys(peers) <==> exists p | p in peers :: p.publicKey == k
  {
    forall p | p in peers ensures p.publicKey in Keys(peers) {
      var i :| 0 <= i < |peers| && peers[i] == p;
    }
    forall k | k in Keys(peers) ensures exists p | p in peers :: p.publicKey == k {
      var i :| 0 <= i < |peers| && peers[i].publicKey == k;
      assert peers[i] in peers;
    }
  }

  lemma {:induction false} AddedKeys(peers: Peers, p: WgPeer)
    ensures forall q :: q in Added(peers, p) ==> q == p || q in peers
    ensures p in Added(peers, p)
    ensures forall q | q in peers && q.publicKey != p.publicKey :: q in Added(peers, p)
  {
    if peers != [] {
      AddedKeys(peers[1..], p);
    }
  }

  lemma {:induction false} AddedDistinct(peers: Peers, p: WgPeer)
    requires Distinct(peers)
    ensures Distinct(Added(peers, p))
  {
    if peers != [] {
      AddedDistinct(peers[1..], p);
      AddedKeys(peers[1..], p);
      var rest := Added(peers[1..], p);
      if peers[0].publicKey != p.publicKey {
        forall i | 0 <= i < |rest| ensures rest[i].publicKey != peers[0].publicKey {
          assert rest[i] in rest;
          if rest[i] != p {
            var j :| 0 <= j < |peers[1..]| && peers[1..][j] == rest[i];
          }
        }
      }
    }
  }

  lemma {:induction false} WithoutDistinct(peers: Peers, keys: set<string>)
    requires Distinct(peers)
    ensures Distinct(Without(peers, keys))
  {
    if peers != [] {
      WithoutDistinct(peers[1..], keys);
      var rest := Without(peers[1..], keys);
      forall i | 0 <= i < |rest| ensures rest[i].publicKey != peers[0].publicKey {
        assert rest[i] in peers[1..];
        var j :| 0 <= j < |peers[1..]| && peers[1..][j] == rest[i];
      }
    }
  }

  lemma KeysOfAdded(peers: Peers, p: WgPeer)
    ensures Keys(Added(peers, p)) == Keys(peers) + {p.publicKey}
  {
    AddedKeys(peers, p);
    KeysIn(peers);
    KeysIn(Added(peers, p));
    hide Keys; hide Added;
    forall k | k in Keys(peers) ensures k in Keys(Added(peers, p)) {
      var q :| q in peers && q.publicKey == k;
      if k == p.publicKey { assert p in Added(peers, p); } else { assert q in Added(peers, p); }
    }
  }

  lemma KeysOfWithout(peers: Peers, keys: set<string>)
    ensures Keys(Without(peers, keys)) == Keys(peers) - keys
  {
    KeysIn(peers);
    KeysIn(Without(peers, keys));
    hide Keys; hide Without;
    forall k | k in Keys(peers) - keys ensures k in Keys(Without(peers, keys)) {
      var q :| q in peers && q.publicKey == k;
      assert q in Without(peers, keys);
    }
  }

  /** Adding peers adds their keys, keeps keys distinct, and keeps every record with another key. */
  lemma {:induction false} AddAllContents(peers: Peers, ps: seq<DesiredPeer>)
    ensures Keys(AddAll(peers, ps)) == Keys(peers) + KeySet(ps)
    ensures forall q | q in peers && q.publicKey !in KeySet(ps) :: q in AddAll(peers, ps)
    ensures Distinct(peers) ==> Distinct(AddAll(peers, ps))
  {
    hide Keys; hide Distinct; hide Added;
    if ps != [] {
      var init, last := ps[..|ps| - 1], ps[|ps| - 1];
      AddAllContents(peers, init);
      AddedKeys(AddAll(peers, init), NewPeer(last));
      KeysOfAdded(AddAll(peers, init), NewPeer(last));
      if Distinct(peers) { AddedDistinct(AddAll(peers, init), NewPeer(last)); }
      assert ps == init + [last];
      KeySetAppend(init, last);
    }
  }

  lemma WantedKeysIn(desired: seq<DesiredPeer>)
    ensures forall k :: k in WantedKeys(desired) <==> exists p | p in desired :: !p.remove && p.publicKey == k
  {
    forall k | k in WantedKeys(desired) ensures exists p | p in desired :: !p.remove && p.publicKey == k {
      var i :| 0 <= i < |desired| && !desired[i].remove && desired[i].publicKey == k;
      assert desired[i] in desired;
    }
    forall p | p in desired && !p.remove ensures p.publicKey in WantedKeys(desired) {
      var i :| 0 <= i < |desired| && desired[i] == p;
    }
  }

  /**
   * One cycle leaves exactly the wanted keys, except those that are also flagged for removal and were present: a
   * cycle removes these and adds them back only in the next one.
   */
  lemma ReconciledKeys(peers: Peers, desired: seq<DesiredPeer>)
    ensures Keys(Reconciled(peers, desired)) == WantedKeys(desired) - Keys(peers) * UnwantedKeys(desired)
    ensures Distinct(peers) ==> Distinct(Reconciled(peers, desired))
    ensures forall p | p in peers && p.publicKey in WantedKeys(desired) && p.publicKey !in UnwantedKeys(desired) ::
      p in Reconciled(peers, desired)
  {
    var actual, wanted, unwanted := Keys(peers), WantedKeys(desired), UnwantedKeys(desired);
    var removed, adds := RemovedKeys(desired, actual), ToAdd(desired, actual);
    var kept := Without(peers, removed);
    KeysOfWithout(peers, removed);
    AddKeys(desired, actual);
    if Distinct(peers) { WithoutDistinct(peers, removed); }
    AddAllContents(kept, adds);
    hide Without; hide ToAdd; hide AddAll; hide Keys; hide WantedKeys; hide UnwantedKeys; hide Distinct; hide KeySet;
    assert (actual - removed) + (wanted - actual) == wanted - actual * unwanted;
    forall p | p in peers && p.publicKey in wanted && p.publicKey !in unwanted ensures p in Reconciled(peers, desired) {
      KeysIn(peers);
      assert p.publicKey in actual;
      assert p in kept;
    }
  }

  lemma AddKeys(desired: seq<DesiredPeer>, actual: set<string>)
    ensures KeySet(ToAdd(desired, actual)) == WantedKeys(desired) - actual
  {
    var adds := ToAdd(desired, actual);
    WantedKeysIn(desired);
    forall k | k in KeySet(adds) ensures k in WantedKeys(desired) - actual {
      var i :| 0 <= i < |adds| && adds[i].publicKey == k;
      assert adds[i] in adds;
    }
    forall k | k in WantedKeys(desired) - actual ensures k in KeySet(adds) {
      var p :| p in desired && !p.remove && p.publicKey == k;
      assert p in adds;
      var i :| 0 <= i < |adds| && adds[i] == p;
    }
  }

  /** A cycle converges to the wanted keys if and only if no present peer is both wanted and flagged for removal. */
  lemma ConvergesIff(peers: Peers, desired: seq<DesiredPeer>)
    ensures Keys(Reconciled(peers, desired)) == WantedKeys(desired)
       <==> Keys(peers) * UnwantedKeys(desired) * WantedKeys(desired) == {}
  {
    ReconciledKeys(peers, desired);
    hide Keys; hide WantedKeys; hide UnwantedKeys; hide Reconciled;
    MinusKeeps(WantedKeys(desired), Keys(peers) * UnwantedKeys(desired));
  }

  lemma MinusKeeps(w: set<string>, out: set<string>)
    ensures w - out == w <==> out * w == {}
  {
    if w - out == w {
      assert out * w == out * (w - out) == {};
    }
    if out * w == {} {
      forall k | k in w ensures k !in out {
        assert k in out ==> k in out * w;
      }
    }
  }

  lemma CardinalSplit(a: set<string>, b: set<string>)
    ensures |a| == |a - b| + |a * b|
  {
    assert a == (a - b) + a * b;
  }

  // What the backend computes from its database: no flags, one peer a key.
  ghost predicate FromDatabase(desired: seq<DesiredPeer>) {
    && (forall i | 0 <= i < |desired| :: !desired[i].remove)
    && (forall i, j | 0 <= i < j < |desired| :: desired[i].publicKey != desired[j].publicKey)
  }

  /**
   * For such peers a cycle ends with exactly their keys, each once, and keeps the record of every peer that was
   * there and is wanted, allowed addresses and all; the next cycle adds and removes nothing and changes nothing.
   */
  lemma Converges(peers: Peers, desired: seq<DesiredPeer>)
    requires FromDatabase(desired) && Distinct(peers)
    ensures var r := Reconciled(peers, desired);
      && Keys(r) == WantedKeys(desired) == KeySet(desired) && Distinct(r)
      && (forall p | p in peers && p.publicKey in KeySet(desired) :: p in r)
      && (forall p | p in desired && p.publicKey !in Keys(peers) :: NewPeer(p) in r)
      && ToAdd(desired, Keys(r)) == [] && Flagged(desired, Keys(r)) == [] && Orphans(desired, Keys(r)) == {}
      && Reconciled(r, desired) == r
  {
    var r := Reconciled(peers, desired);
    assert UnwantedKeys(desired) == {};
    ReconciledKeys(peers, desired);
    WantedKeysIn(desired);
    assert Keys(r) == WantedKeys(desired) && KeySet(desired) == WantedKeys(desired);
    NoneToAdd(desired, Keys(r));
    assert RemovedKeys(desired, Keys(r)) == {} == KeySet([]);
    WithoutNone(r);
    forall p | p in desired && p.publicKey !in Keys(peers) ensures NewPeer(p) in r {
      assert p in ToAdd(desired, Keys(peers));
      AddsDistinct(desired, Keys(peers));
      AddedRecord(Without(peers, RemovedKeys(desired, Keys(peers))), ToAdd(desired, Keys(peers)), p);
    }
  }

  /** Every peer that is desired has the allowed addresses that are desired for it. */
  ghost predicate AddressesAsDesired(peers: Peers, desired: seq<DesiredPeer>) {
    forall p, d | p in peers && d in desired && p.publicKey == d.publicKey :: p.allowedIps == d.allowedIps
  }

  function Cycles(peers: Peers, desired: seq<DesiredPeer>, n: nat): Peers {
    if n == 0 then peers else Reconciled(Cycles(peers, desired, n - 1), desired)
  }

  lemma UniqueKey(peers: Peers, p: WgPeer, q: WgPeer)
    requires Distinct(peers) && p in peers && q in peers && p.publicKey == q.publicKey
    ensures p == q
  {
    var i :| 0 <= i < |peers| && peers[i] == p;
    var j :| 0 <= j < |peers| && peers[j] == q;
    assert !(i < j) && !(j < i);
  }

  /**
   * The allowed addresses are as desired after a cycle, and after any number of cycles, if and only if those of every
   * desired peer that was there already were before the first: a cycle never updates a record.
   */
  lemma {:induction false} AddressesReachIff(peers: Peers, desired: seq<DesiredPeer>, n: nat)
    requires FromDatabase(desired) && Distinct(peers) && n > 0
    ensures AddressesAsDesired(Cycles(peers, desired, n), desired) <==> AddressesAsDesired(peers, desired)
    ensures Cycles(peers, desired, n) == Reconciled(peers, desired)
  {
    Converges(peers, desired);
    if n > 1 {
      AddressesReachIff(peers, desired, n - 1);
    } else {
      assert Cycles(peers, desired, 0) == peers;
      OneCycle(peers, desired);
    }
    hide Reconciled; hide FromDatabase; hide Distinct; hide AddressesAsDesired;
  }

  lemma OneCycle(peers: Peers, desired: seq<DesiredPeer>)
    requires FromDatabase(desired) && Distinct(peers)
    ensures AddressesAsDesired(Reconciled(peers, desired), desired) <==> AddressesAsDesired(peers, desired)
  {
    var r := Reconciled(peers, desired);
    Converges(peers, desired);
    WantedKeysIn(desired);
    KeysIn(peers);
    hide Reconciled; hide Distinct; hide WantedKeys; hide Keys;
    DesiredKeys(desired);
    hide KeySet; hide FromDatabase;
    if AddressesAsDesired(peers, desired) {
      forall p, d | p in r && d in desired && p.publicKey == d.publicKey ensures p.allowedIps == d.allowedIps {
        if d.publicKey in Keys(peers) {
          var q :| q in peers && q.publicKey == d.publicKey;
          UniqueKey(r, p, q);
        } else {
          UniqueKey(r, p, NewPeer(d));
        }
      }
    }
  }

  lemma DesiredKeys(desired: seq<DesiredPeer>)
    ensures forall d | d in desired :: d.publicKey in KeySet(desired)
  {
    forall d | d in desired ensures d.publicKey in KeySet(desired) {
      var i :| 0 <= i < |desired| && desired[i] == d;
    }
  }

  // ----- Runs of cycles, each with its own desired peers

  function Cycled(peers: Peers, lists: seq<seq<DesiredPeer>>): Peers {
    if lists == [] then peers else Reconciled(Cycled(peers, lists[..|lists| - 1]), lists[|lists| - 1])
  }

  ghost predicate AllFromDatabase(lists: seq<seq<DesiredPeer>>) {
    forall i | 0 <= i < |lists| :: FromDatabase(lists[i])
  }

  /** The first cycle from which on every list holds the key; the number of cycles when the last list does not. */
  function WantedSince(lists: seq<seq<DesiredPeer>>, key: string): (j: nat)
    ensures j <= |lists| && forall i | j <= i < |lists| :: key in KeySet(lists[i])
    ensures j > 0 ==> key !in KeySet(lists[j - 1])
  {
    if lists == [] || key !in KeySet(lists[|lists| - 1]) then |lists| else WantedSince(lists[..|lists| - 1], key)
  }

  /**
   * The record as the run leaves it: the one from before the run when the key was there and every list holds it,
   * otherwise a new one, with the addresses desired in the first cycle from which on the key was wanted.
   */
  ghost predicate RecordOf(peers: Peers, lists: seq<seq<DesiredPeer>>, p: WgPeer) {
    var j := WantedSince(lists, p.publicKey);
    if j == 0 && p.publicKey in Keys(peers) then p in peers
    else j < |lists| && exists d | d in lists[j] :: p == NewPeer(d)
  }

  /** Over every run of cycles a peer is there exactly with the record that it got when it was last added. */
  lemma {:induction false} RecordsOfRun(peers: Peers, lists: seq<seq<DesiredPeer>>, p: WgPeer)
    requires AllFromDatabase(lists) && Distinct(peers)
    ensures Distinct(Cycled(peers, lists))
    ensures Keys(Cycled(peers, lists)) == if lists == [] then Keys(peers) else KeySet(lists[|lists| - 1])
    ensures p in Cycled(peers, lists) <==> RecordOf(peers, lists, p)
  {
    hide Distinct; hide Keys; hide KeySet; hide Reconciled; hide FromDatabase;
    if lists == [] {
      MemberKey(peers, p);
    } else {
      var n := |lists| - 1;
      var init, last := lists[..n], lists[n];
      assert AllFromDatabase(init) && FromDatabase(last);
      RecordsOfRun(peers, init, p);
      Converges(Cycled(peers, init), last);
      MemberKey(Reconciled(Cycled(peers, init), last), p);
      if p.publicKey in KeySet(last) { RecordStep(Cycled(peers, init), last, p); }
    }
  }

  lemma MemberKey(peers: Peers, p: WgPeer)
    ensures p in peers ==> p.publicKey in Keys(peers)
  {
    KeysIn(peers);
  }

  // One cycle: a wanted peer that was there keeps its record, and one that was not gets a new one.
  lemma RecordStep(peers: Peers, desired: seq<DesiredPeer>, p: WgPeer)
    requires FromDatabase(desired) && Distinct(peers) && p.publicKey in KeySet(desired)
    ensures p in Reconciled(peers, desired) <==>
      if p.publicKey in Keys(peers) then p in peers else exists d | d in desired :: p == NewPeer(d)
  {
    hide Distinct; hide Reconciled; hide FromDatabase; hide Keys; hide KeySet;
    var r := Reconciled(peers, desired);
    Converges(peers, desired);
    if p.publicKey in Keys(peers) {
      KeysIn(peers);
      var q :| q in peers && q.publicKey == p.publicKey;
      if p in r { UniqueKey(r, p, q); }
    } else {
      var d := DesiredWith(desired, p.publicKey);
      if p in r { UniqueKey(r, p, NewPeer(d)); }
    }
  }

  lemma DesiredWith(desired: seq<DesiredPeer>, key: string) returns (d: DesiredPeer)
    requires key in KeySet(desired)
    ensures d in desired && d.publicKey == key
  {
    var i :| 0 <= i < |desired| && desired[i].publicKey == key;
    d := desired[i];
  }

  /** A peer keeps its record, addresses and all, through every run of cycles that all want its key. */
  lemma WantedKeepsRecord(peers: Peers, lists: seq<seq<DesiredPeer>>, p: WgPeer)
    requires AllFromDatabase(lists) && Distinct(peers) && p in peers
    requires forall i | 0 <= i < |lists| :: p.publicKey in KeySet(lists[i])
    ensures p in Cycled(peers, lists)
  {
    RecordsOfRun(peers, lists, p);
    MemberKey(peers, p);
    hide Cycled; hide KeySet; hide Keys;
    assert WantedSince(lists, p.publicKey) == 0;
  }

  /**
   * A route that is approved after its device was added does not reach the interface as long as every cycle wants the
   * device.
   */
  lemma LateRouteIsMissed(
    peers: Peers, lists: seq<seq<DesiredPeer>>, p: WgPeer, ip: string, route: string)
    requires AllFromDatabase(lists) && Distinct(peers) && lists != []
    requires p in peers && p.allowedIps == [ip]
    requires forall i | 0 <= i < |lists| :: p.publicKey in KeySet(lists[i])
    requires DesiredPeer(p.publicKey, [ip, route], false) in lists[|lists| - 1]
    ensures p in Cycled(peers, lists) && !AddressesAsDesired(Cycled(peers, lists), lists[|lists| - 1])
  {
    WantedKeepsRecord(peers, lists, p);
    assert |p.allowedIps| != |[ip, route]|;
    hide Cycled; hide KeySet; hide Distinct;
  }

  /** It does reach the interface once a cycle has not wanted the device and the next one wants it again. */
  lemma RouteArrivesAfterAbsence(
    peers: Peers, lists: seq<seq<DesiredPeer>>, without: seq<DesiredPeer>, desired: seq<DesiredPeer>, d: DesiredPeer)
    requires AllFromDatabase(lists) && FromDatabase(without) && FromDatabase(desired) && Distinct(peers)
    requires d.publicKey !in KeySet(without) && d in desired
    ensures NewPeer(d) in Cycled(peers, lists + [without] + [desired])
  {
    var all := lists + [without] + [desired];
    RecordsOfRun(peers, all, NewPeer(d));
    DesiredKeys(desired);
    hide Cycled; hide KeySet; hide Distinct; hide FromDatabase; hide Keys;
    var n := |lists|;
    assert all[n] == without && all[n + 1] == desired;
    assert WantedSince(all, d.publicKey) == n + 1;
  }

  /**
   * After a run of cycles the addresses are as the last list desires if and only if, for each of its peers, they are
   * those from before the run, when the peer was there all along, or those desired when it was last added.
   */
  lemma AddressesAfterRunIff(peers: Peers, lists: seq<seq<DesiredPeer>>)
    requires AllFromDatabase(lists) && Distinct(peers) && lists != []
    ensures AddressesAsDesired(Cycled(peers, lists), lists[|lists| - 1]) <==>
      forall d | d in lists[|lists| - 1] ::
        var j := WantedSince(lists, d.publicKey);
        if j == 0 && d.publicKey in Keys(peers) then
          forall p | p in peers && p.publicKey == d.publicKey :: p.allowedIps == d.allowedIps
        else forall e | e in lists[j] && e.publicKey == d.publicKey :: e.allowedIps == d.allowedIps
  {
    var last := lists[|lists| - 1];
    DesiredKeys(last);
    forall p ensures p in Cycled(peers, lists) <==> RecordOf(peers, lists, p) {
      RecordsOfRun(peers, lists, p);
    }
    hide Cycled; hide KeySet; hide Distinct; hide FromDatabase; hide Keys;
    forall d | d in last
      ensures var j := WantedSince(lists, d.publicKey);
        (forall p | p in Cycled(peers, lists) && p.publicKey == d.publicKey :: p.allowedIps == d.allowedIps) <==>
        if j == 0 && d.publicKey in Keys(peers) then
          forall p | p in peers && p.publicKey == d.publicKey :: p.allowedIps == d.allowedIps
        else forall e | e in lists[j] && e.publicKey == d.publicKey :: e.allowedIps == d.allowedIps
    {
      assert d.publicKey in KeySet(last);
      assert WantedSince(lists, d.publicKey) <= |lists[..|lists| - 1]|;
      AddressesOf(peers, lists, d);
    }
  }

  lemma AddressesOf(peers: Peers, lists: seq<seq<DesiredPeer>>, d: DesiredPeer)
    requires forall p :: p in Cycled(peers, lists) <==> RecordOf(peers, lists, p)
    requires WantedSince(lists, d.publicKey) < |lists|
    ensures var j := WantedSince(lists, d.publicKey);
      (forall p | p in Cycled(peers, lists) && p.publicKey == d.publicKey :: p.allowedIps == d.allowedIps) <==>
      if j == 0 && d.publicKey in Keys(peers) then
        forall p | p in peers && p.publicKey == d.publicKey :: p.allowedIps == d.allowedIps
      else forall e | e in lists[j] && e.publicKey == d.publicKey :: e.allowedIps == d.allowedIps
  {
    hide Cycled; hide WantedSince; hide Keys;
    var j := WantedSince(lists, d.publicKey);
    if !(j == 0 && d.publicKey in Keys(peers)) {
      forall e | e in lists[j] && e.publicKey == d.publicKey ensures NewPeer(e) in Cycled(peers, lists) {
        assert RecordOf(peers, lists, NewPeer(e));
      }
    } else {
      forall p | p in peers && p.publicKey == d.publicKey ensures p in Cycled(peers, lists) {
        assert RecordOf(peers, lists, p);
      }
    }
  }

  /** Among peers added with distinct keys, each has the record that it was added with. */
  lemma {:induction false} AddedRecord(peers: Peers, ps: seq<DesiredPeer>, p: DesiredPeer)
    requires p in ps && |KeySet(ps)| == |ps|
    ensures NewPeer(p) in AddAll(peers, ps)
  {
    var init, last := ps[..|ps| - 1], ps[|ps| - 1];
    assert ps == init + [last];
    KeySetAppend(init, last);
    KeySetSize(init);
    AddedKeys(AddAll(peers, init), NewPeer(last));
    if p in init {
      var i :| 0 <= i < |init| && init[i] == p;
      assert p.publicKey in KeySet(init) && last.publicKey !in KeySet(init);
      AddedRecord(peers, init, p);
    }
  }

  lemma {:induction false} KeySetSize(ps: seq<DesiredPeer>)
    ensures |KeySet(ps)| <= |ps|
  {
    if ps == [] {
      assert KeySet(ps) == {};
    } else {
      assert ps == ps[..|ps| - 1] + [ps[|ps| - 1]];
      KeySetSize(ps[..|ps| - 1]);
      KeySetAppend(ps[..|ps| - 1], ps[|ps| - 1]);
    }
  }

  lemma NoneToAdd(desired: seq<DesiredPeer>, actual: set<string>)
    requires FromDatabase(desired) && WantedKeys(desired) <= actual
    ensures ToAdd(desired, actual) == [] && Flagged(desired, actual) == []
  {
    WantedKeysIn(desired);
    if ToAdd(desired, actual) != [] {
      assert ToAdd(desired, actual)[0] in ToAdd(desired, actual);
    }
    if Flagged(desired, actual) != [] {
      assert Flagged(desired, actual)[0] in Flagged(desired, actual);
    }
  }

  /**
   * The list to add has no key in common with the other two. The lists to update and to remove have none in common if
   * and only if no present key is both wanted and flagged for removal.
   */
  lemma DiffIsDisjoint(desired: seq<DesiredPeer>, actual: set<string>, diff: PeerDiff)
    requires IsDiff(desired, actual, diff)
    ensures KeySet(diff.toAdd) !! KeySet(diff.toUpdate) && KeySet(diff.toAdd) !! KeySet(diff.toRemove)
    ensures KeySet(diff.toUpdate) !! KeySet(diff.toRemove) <==> actual * UnwantedKeys(desired) * WantedKeys(desired) == {}
  {
    DiffLists(desired, actual, diff);
    AddKeys(desired, actual);
    UpdateKeys(desired, actual);
    assert diff.toUpdate == ToUpdate(desired, actual);
    hide KeySet; hide WantedKeys; hide UnwantedKeys; hide IsDiff; hide ToAdd; hide ToUpdate;
    MeetsIff(actual, WantedKeys(desired), UnwantedKeys(desired));
  }

  lemma MeetsIff(actual: set<string>, wanted: set<string>, unwanted: set<string>)
    ensures (wanted - actual) !! (wanted * actual)
    ensures (wanted - actual) !! (actual * unwanted + (actual - wanted - unwanted))
    ensures (wanted * actual) !! (actual * unwanted + (actual - wanted - unwanted)) <==> actual * unwanted * wanted == {}
  {
    forall k | k in wanted * actual && k in actual * unwanted + (actual - wanted - unwanted)
      ensures k in actual * unwanted * wanted
    {
    }
    forall k | k in actual * unwanted * wanted
      ensures k in wanted * actual && k in actual * unwanted + (actual - wanted - unwanted)
    {
    }
  }

  lemma UpdateKeys(desired: seq<DesiredPeer>, actual: set<string>)
    ensures KeySet(ToUpdate(desired, actual)) == WantedKeys(desired) * actual
  {
    var updates := ToUpdate(desired, actual);
    WantedKeysIn(desired);
    forall k | k in KeySet(updates) ensures k in WantedKeys(desired) * actual {
      var i :| 0 <= i < |updates| && updates[i].publicKey == k;
      assert updates[i] in updates;
    }
    forall k | k in WantedKeys(desired) * actual ensures k in KeySet(updates) {
      var p :| p in desired && !p.remove && p.publicKey == k;
      assert p in updates;
      var i :| 0 <= i < |updates| && updates[i] == p;
    }
  }

  lemma {:induction false} KeysCount(peers: Peers)
    requires Distinct(peers)
    ensures |Keys(peers)| == |peers|
  {
    if peers != [] {
      var init, last := peers[..|peers| - 1], peers[|peers| - 1];
      KeysCount(init);
      KeysIn(peers);
      KeysIn(init);
      assert last in peers;
      assert Keys(peers) == Keys(init) + {last.publicKey} by {
        forall p | p in peers ensures p == last || p in init {
          var i :| 0 <= i < |peers| && peers[i] == p;
          assert i < |init| ==> init[i] == p;
        }
        assert forall p | p in init :: p in peers;
      }
      assert last.publicKey !in Keys(init);
    }
  }

  lemma {:induction false} AddsDistinct(desired: seq<DesiredPeer>, actual: set<string>)
    requires FromDatabase(desired)
    ensures |KeySet(ToAdd(desired, actual))| == |ToAdd(desired, actual)|
  {
    if desired != [] {
      var init, last := desired[..|desired| - 1], desired[|desired| - 1];
      AddsDistinct(init, actual);
      var adds := ToAdd(init, actual);
      KeySetAppend(adds, last);
      forall i | 0 <= i < |adds| ensures adds[i].publicKey != last.publicKey {
        assert adds[i] in init;
        var j :| 0 <= j < |init| && init[j] == adds[i];
        assert desired[j] == init[j];
      }
    }
  }

  /** The number of peers changes by those added minus those removed. */
  lemma CountConserved(peers: Peers, desired: seq<DesiredPeer>)
    requires FromDatabase(desired) && Distinct(peers)
    ensures var actual := Keys(peers);
      |Reconciled(peers, desired)| == |peers| + |ToAdd(desired, actual)| - |Flagged(desired, actual)| - |Orphans(desired, actual)|
  {
    hide Keys; hide ToAdd; hide WantedKeys; hide Reconciled; hide KeySet; hide Distinct; hide Flagged; hide Orphans;
    hide FromDatabase;
    var actual, wanted := Keys(peers), WantedKeys(desired);
    Converges(peers, desired);
    KeysCount(peers);
    KeysCount(Reconciled(peers, desired));
    AddsDistinct(desired, actual);
    AddKeys(desired, actual);
    NoneFlagged(desired, actual);
    CardinalSplit(actual, wanted);
    CardinalSplit(wanted, actual);
    assert wanted * actual == actual * wanted;
  }

  lemma NoneFlagged(desired: seq<DesiredPeer>, actual: set<string>)
    requires FromDatabase(desired)
    ensures Flagged(desired, actual) == [] && Orphans(desired, actual) == actual - WantedKeys(desired)
  {
    assert UnwantedKeys(desired) == {};
    if Flagged(desired, actual) != [] {
      assert Flagged(desired, actual)[0] in Flagged(desired, actual);
    }
  }

  // ----- The desired peers

  // A device joined with its network; interfaceName is the network's, or the configured one when it has none.
  datatype DeviceRow = DeviceRow(
    id: string,
    name: string,
    isActive: bool,
    publicKey: Option<string>,
    ipAddress: Option<string>,
    interfaceName: string)

  const SERVER_NAME := "__midscale_server__"

  predicate Managed(d: DeviceRow, name: string) {
    d.isActive && d.publicKey.Some? && d.ipAddress.Some? && d.interfaceName == name && d.name != SERVER_NAME
  }

  function RoutesOf(routes: map<string, seq<string>>, id: string): seq<string> {
    if id in routes then routes[id] else []
  }

  function DesiredOf(d: DeviceRow, routes: map<string, seq<string>>): DesiredPeer
    requires d.publicKey.Some? && d.ipAddress.Some?
  {
    DesiredPeer(d.publicKey.value, [d.ipAddress.value + "/32"] + RoutesOf(routes, d.id), false)
  }

  function DesiredPeers(rows: seq<DeviceRow>, routes: map<string, seq<string>>, name: string): seq<DesiredPeer> {
    if rows == [] then []
    else
      var init, d := rows[..|rows| - 1], rows[|rows| - 1];
      if Managed(d, name) then DesiredPeers(init, routes, name) + [DesiredOf(d, routes)] else DesiredPeers(init, routes, name)
  }

  method GetDesiredPeers(rows: seq<DeviceRow>, routes: map<string, seq<string>>, name: string)
    returns (peers: seq<DesiredPeer>)
    ensures peers == DesiredPeers(rows, routes, name)
  {
    peers := [];
    for i := 0 to |rows|
      invariant peers == DesiredPeers(rows[..i], routes, name)
    {
      assert rows[..i + 1][..i] == rows[..i];
      if Managed(rows[i], name) {
        var allowedIps := [rows[i].ipAddress.value + "/32"];
        allowedIps := allowedIps + RoutesOf(routes, rows[i].id);
        peers := peers + [DesiredPeer(rows[i].publicKey.value, allowedIps, false)];
      }
    }
    assert rows[..|rows|] == rows;
  }

  ghost predicate DistinctKeys(rows: seq<DeviceRow>) {
    forall i, j | 0 <= i < j < |rows| && rows[i].publicKey.Some? :: rows[i].publicKey != rows[j].publicKey
  }

  lemma {:induction false} DesiredContents(rows: seq<DeviceRow>, routes: map<string, seq<string>>, name: string)
    ensures forall p :: p in DesiredPeers(rows, routes, name) <==>
      exists d | d in rows && Managed(d, name) :: p == DesiredOf(d, routes)
  {
    if rows != [] {
      hide DesiredOf; hide Managed;
      var init, d := rows[..|rows| - 1], rows[|rows| - 1];
      DesiredContents(init, routes, name);
      assert rows == init + [d];
    }
  }

  /** Devices with distinct keys give peers as Converges assumes them, one for each managed device. */
  lemma {:induction false} DesiredAreFromDatabase(rows: seq<DeviceRow>, routes: map<string, seq<string>>, name: string)
    requires DistinctKeys(rows)
    ensures FromDatabase(DesiredPeers(rows, routes, name))
    ensures forall p :: p in DesiredPeers(rows, routes, name) <==>
      exists d | d in rows && Managed(d, name) :: p == DesiredOf(d, routes)
  {
    DesiredContents(rows, routes, name);
    if rows != [] {
      hide DesiredOf;
      var init, d := rows[..|rows| - 1], rows[|rows| - 1];
      DesiredAreFromDatabase(init, routes, name);
      var peers := DesiredPeers(init, routes, name);
      if Managed(d, name) {
        forall i | 0 <= i < |peers| ensures peers[i].publicKey != d.publicKey.value {
          assert peers[i] in peers;
          var e :| e in init && Managed(e, name) && peers[i] == DesiredOf(e, routes);
          KeyOfDesired(e, routes);
          var j :| 0 <= j < |init| && init[j] == e;
          assert rows[j] == e;
        }
        KeyOfDesired(d, routes);
      }
    }
  }

  lemma KeyOfDesired(d: DeviceRow, routes: map<string, seq<string>>)
    requires d.publicKey.Some? && d.ipAddress.Some?
    ensures DesiredOf(d, routes).publicKey == d.publicKey.value && !DesiredOf(d, routes).remove
  {
  }
}
