/** The daemon's application of a configuration to its WireGuard interface. */
module WgRuntime {

  import opened Options
  import opened Decimal
  import opened IniFormat
  import IniPrinter
  import IniParser
  import IniRoundTrip

  // A peer of the interface, as "wg set" keeps it.
  datatype PeerState = PeerState(allowedIps: seq<string>, endpoint: Option<string>, persistentKeepalive: Option<int>)

  type Interface = map<string, PeerState>

  function EndpointText(p: Peer): string
    requires HasText(p.endpoint)
  {
    p.endpoint.value + ":" + IntText(PortOr51820(p.endpointPort))
  }

  /** "wg set ... peer": the allowed addresses are replaced, endpoint and keepalive only when given. */
  function SetPeer(i: Interface, p: Peer): Interface {
    var prior := if p.publicKey in i then i[p.publicKey] else PeerState([], None, None);
    i[p.publicKey := PeerState(
      p.allowedIps,
      if HasText(p.endpoint) then Some(EndpointText(p)) else prior.endpoint,
      if p.persistentKeepalive.Some? then p.persistentKeepalive else prior.persistentKeepalive)]
  }

  function SetAll(i: Interface, ps: seq<Peer>): Interface {
    if ps == [] then i else SetPeer(SetAll(i, ps[..|ps| - 1]), ps[|ps| - 1])
  }

  function KeysOf(ps: seq<Peer>): set<string> {
    set k | 0 <= k < |ps| :: ps[k].publicKey
  }

  /** The interface afterwards; readable tells whether its state could be read before. */
  function Applied(i: Interface, ps: seq<Peer>, readable: bool): Interface {
    SetAll(i, ps) - if readable then i.Keys - KeysOf(ps) else {}
  }

  class WireGuardRuntime {
    var peers: Interface
    var privateKey: string
    var listenPort: int

    constructor ()
      ensures peers == map[]
    {
      peers := map[];
      privateKey := "";
      listenPort := 0;
    }

    method ApplyConfig(config: DesiredConfig, readable: bool)
      modifies this
      ensures peers == Applied(old(peers), config.peers, readable)
      ensures privateKey == config.privateKey
      ensures listenPort ==
        if config.listenPort.Some? && config.listenPort.value != 0 then config.listenPort.value else 51820
    {
      privateKey := config.privateKey;
      listenPort := PortOr51820(config.listenPort);
      var currentKeys := if readable then peers.Keys else {};
      var desiredKeys := KeysOf(config.peers);
      for k := 0 to |config.peers|
        invariant peers == SetAll(old(peers), config.peers[..k])
        invariant privateKey == config.privateKey && listenPort == PortOr51820(config.listenPort)
      {
        assert config.peers[..k + 1][..k] == config.peers[..k];
        peers := SetPeer(peers, config.peers[k]);
      }
      assert config.peers[..|config.peers|] == config.peers;
      ghost var all, i := currentKeys, SetAll(old(peers), config.peers);
      assert peers == i - {};
      while currentKeys != {}
        invariant currentKeys <= all
        invariant peers == i - (all - currentKeys - desiredKeys)
        invariant privateKey == config.privateKey && listenPort == PortOr51820(config.listenPort)
      {
        var key :| key in currentKeys;
        if key !in desiredKeys {
          peers := peers - {key};
        }
        currentKeys := currentKeys - {key};
      }
      assert all - {} - desiredKeys == all - desiredKeys;
    }
  }

  // ----- What is reached

  /** The endpoint and the keepalive that the last peer with the key and such a value gives, or the old ones. */
  function LastEndpoint(ps: seq<Peer>, key: string, prior: Option<string>): Option<string> {
    if ps == [] then prior
    else
      var p := ps[|ps| - 1];
      if p.publicKey == key && HasText(p.endpoint) then Some(EndpointText(p)) else LastEndpoint(ps[..|ps| - 1], key, prior)
  }

  function LastKeepalive(ps: seq<Peer>, key: string, prior: Option<int>): Option<int> {
    if ps == [] then prior
    else
      var p := ps[|ps| - 1];
      if p.publicKey == key && p.persistentKeepalive.Some? then p.persistentKeepalive
      else LastKeepalive(ps[..|ps| - 1], key, prior)
  }

  function LastIps(ps: seq<Peer>, key: string, prior: seq<string>): seq<string> {
    if ps == [] then prior
    else if ps[|ps| - 1].publicKey == key then ps[|ps| - 1].allowedIps
    else LastIps(ps[..|ps| - 1], key, prior)
  }

  function LastState(ps: seq<Peer>, key: string, prior: PeerState): PeerState {
    PeerState(
      LastIps(ps, key, prior.allowedIps),
      LastEndpoint(ps, key, prior.endpoint),
      LastKeepalive(ps, key, prior.persistentKeepalive))
  }

  function Before(i: Interface, key: string): PeerState {
    if key in i then i[key] else PeerState([], None, None)
  }

  lemma {:induction false} SetAllReaches(i: Interface, ps: seq<Peer>)
    ensures SetAll(i, ps).Keys == i.Keys + KeysOf(ps)
    ensures forall key | key in SetAll(i, ps) :: SetAll(i, ps)[key] == LastState(ps, key, Before(i, key))
  {
    hide EndpointText;
    if ps != [] {
      var init, last := ps[..|ps| - 1], ps[|ps| - 1];
      SetAllReaches(i, init);
      KeysOfAppend(init, last);
      assert ps == init + [last];
      if last.publicKey !in SetAll(i, init) {
        NotGiven(init, last.publicKey, Before(i, last.publicKey));
      }
    }
  }

  lemma KeysOfAppend(ps: seq<Peer>, p: Peer)
    ensures KeysOf(ps + [p]) == KeysOf(ps) + {p.publicKey}
  {
    var all := ps + [p];
    assert all[|ps|] == p;
    forall k | k in KeysOf(ps) ensures k in KeysOf(all) {
      var i :| 0 <= i < |ps| && ps[i].publicKey == k;
      assert all[i] == ps[i];
    }
  }

  /**
   * Applying a configuration to any readable interface leaves exactly its keys, each with the allowed addresses of
   * the configuration, and with its endpoint and keepalive where given, the old ones otherwise.
   */
  lemma ApplyReaches(i: Interface, ps: seq<Peer>)
    ensures var r := Applied(i, ps, true);
      && r.Keys == KeysOf(ps)
      && (forall key | key in r :: r[key] == LastState(ps, key, Before(i, key)).(allowedIps := LastIps(ps, key, [])))
  {
    SetAllReaches(i, ps);
    var r := Applied(i, ps, true);
    forall key | key in r
      ensures r[key] == LastState(ps, key, Before(i, key)).(allowedIps := LastIps(ps, key, []))
    {
      assert r[key] == SetAll(i, ps)[key];
      IpsGiven(ps, key, Before(i, key).allowedIps);
    }
  }

  lemma {:induction false} IpsGiven(ps: seq<Peer>, key: string, prior: seq<string>)
    requires key in KeysOf(ps)
    ensures LastIps(ps, key, prior) == LastIps(ps, key, [])
  {
    var init, last := ps[..|ps| - 1], ps[|ps| - 1];
    if last.publicKey != key {
      KeysOfAppend(init, last);
      assert ps == init + [last];
      IpsGiven(init, key, prior);
    }
  }

  /** When the old state cannot be read nothing is removed. */
  lemma UnreadableRemovesNothing(i: Interface, ps: seq<Peer>)
    ensures Applied(i, ps, false).Keys == i.Keys + KeysOf(ps)
    ensures forall key | key in i && key !in KeysOf(ps) :: Applied(i, ps, false)[key] == i[key]
  {
    SetAllReaches(i, ps);
    forall key | key in i && key !in KeysOf(ps) {
      NotGiven(ps, key, i[key]);
    }
  }

  lemma {:induction false} NotGiven(ps: seq<Peer>, key: string, prior: PeerState)
    requires key !in KeysOf(ps)
    ensures LastIps(ps, key, prior.allowedIps) == prior.allowedIps
    ensures LastEndpoint(ps, key, prior.endpoint) == prior.endpoint
    ensures LastKeepalive(ps, key, prior.persistentKeepalive) == prior.persistentKeepalive
  {
    if ps != [] {
      var init, last := ps[..|ps| - 1], ps[|ps| - 1];
      KeysOfAppend(init, last);
      assert ps == init + [last];
      NotGiven(init, key, prior);
    }
  }

  lemma LastOfLast(ps: seq<Peer>, key: string, endpoint: Option<string>, keepalive: Option<int>)
    ensures LastEndpoint(ps, key, LastEndpoint(ps, key, endpoint)) == LastEndpoint(ps, key, endpoint)
    ensures LastKeepalive(ps, key, LastKeepalive(ps, key, keepalive)) == LastKeepalive(ps, key, keepalive)
  {
    LastEndpointIs(ps, key, endpoint, LastEndpoint(ps, key, endpoint));
    LastKeepaliveIs(ps, key, keepalive, LastKeepalive(ps, key, keepalive));
  }

  lemma {:induction false} LastEndpointIs(ps: seq<Peer>, key: string, prior: Option<string>, e: Option<string>)
    requires LastEndpoint(ps, key, prior) == e
    ensures LastEndpoint(ps, key, e) == e
  {
    hide EndpointText;
    if ps != [] {
      var p := ps[|ps| - 1];
      if !(p.publicKey == key && HasText(p.endpoint)) { LastEndpointIs(ps[..|ps| - 1], key, prior, e); }
    }
  }

  lemma {:induction false} LastKeepaliveIs(ps: seq<Peer>, key: string, prior: Option<int>, k: Option<int>)
    requires LastKeepalive(ps, key, prior) == k
    ensures LastKeepalive(ps, key, k) == k
  {
    if ps != [] {
      var p := ps[|ps| - 1];
      if !(p.publicKey == key && p.persistentKeepalive.Some?) { LastKeepaliveIs(ps[..|ps| - 1], key, prior, k); }
    }
  }

  /** Applying a configuration twice is applying it once. */
  lemma ApplyTwice(i: Interface, ps: seq<Peer>)
    ensures Applied(Applied(i, ps, true), ps, true) == Applied(i, ps, true)
  {
    var r := Applied(i, ps, true);
    ApplyReaches(i, ps);
    ApplyReaches(r, ps);
    forall key | key in r ensures Applied(r, ps, true)[key] == r[key] {
      LastOfLast(ps, key, Before(i, key).endpoint, Before(i, key).persistentKeepalive);
    }
    hide Applied; hide LastEndpoint; hide LastKeepalive; hide LastIps;
  }

  /**
   * From the backend's record to the daemon's interface: printing a well-formed configuration, parsing the text and
   * applying the result leaves one peer for each key of the record, with the record's allowed addresses, and with its
   * endpoint and keepalive where it gives them; private key and listen port are those of the record.
   */
  lemma PrintedConfigIsApplied(c: WireGuardConfig, i: Interface)
    requires IniRoundTrip.WellFormed(c)
    ensures IniParser.ParseIni(IniPrinter.IniText(c)).Parsed?
    ensures var config := IniParser.ParseIni(IniPrinter.IniText(c)).config;
      var r := Applied(i, config.peers, true);
      && config.privateKey == c.privateKey && PortOr51820(config.listenPort) == PortOr51820(c.listenPort)
      && r.Keys == KeysOf(c.peers)
      && forall key | key in r ::
           r[key] == LastState(c.peers, key, Before(i, key)).(allowedIps := LastIps(c.peers, key, []))
  {
    IniRoundTrip.RoundTripIff(c);
    var ps := IniRoundTrip.NormalPeers(c.peers);
    hide IniParser.ParseIni; hide IniPrinter.IniText; hide IniRoundTrip.WellFormed; hide EndpointText;
    ApplyReaches(i, ps);
    SameKeys(ps, c.peers);
    forall key | key in KeysOf(ps)
      ensures LastState(ps, key, Before(i, key)) == LastState(c.peers, key, Before(i, key))
      ensures LastIps(ps, key, []) == LastIps(c.peers, key, [])
    {
      NormalState(c.peers, key, Before(i, key));
      NormalState(c.peers, key, Before(i, key).(allowedIps := []));
    }
    hide Applied; hide LastIps; hide LastEndpoint; hide LastKeepalive; hide KeysOf;
  }

  lemma SameKeys(a: seq<Peer>, b: seq<Peer>)
    requires |a| == |b| && forall k | 0 <= k < |a| :: a[k].publicKey == b[k].publicKey
    ensures KeysOf(a) == KeysOf(b)
  {
    forall x | x in KeysOf(a) ensures x in KeysOf(b) {
      var k :| 0 <= k < |a| && a[k].publicKey == x;
      assert b[k].publicKey == x;
    }
    forall x | x in KeysOf(b) ensures x in KeysOf(a) {
      var k :| 0 <= k < |b| && b[k].publicKey == x;
      assert a[k].publicKey == x;
    }
  }

  // Reading a printed peer back changes nothing that "wg set" is told.
  lemma {:induction false} NormalState(ps: seq<Peer>, key: string, prior: PeerState)
    ensures LastState(IniRoundTrip.NormalPeers(ps), key, prior) == LastState(ps, key, prior)
  {
    if ps != [] {
      var n := |ps| - 1;
      NormalState(ps[..n], key, prior);
      assert IniRoundTrip.NormalPeers(ps)[..n] == IniRoundTrip.NormalPeers(ps[..n]);
      SameEndpoint(ps[n]);
      hide EndpointText;
    }
  }

  lemma SameEndpoint(p: Peer)
    ensures var q := IniRoundTrip.NormalPeer(p);
      && HasText(q.endpoint) == HasText(p.endpoint)
      && (HasText(p.endpoint) ==> EndpointText(q) == EndpointText(p))
  {
  }
}
