/** The daemon reads back what the backend prints, for exactly the configurations that WellFormed describes. */

module IniRoundTrip {

  import opened Options
  import opened Seqs
  import opened Text
  import opened Decimal
  import opened IniFormat
  import opened IniPrinter
  import opened IniParser

  // A text that the value group of a line can hold.
  predicate IsValue(v: string) {
    '\n' !in v && (v != "" ==> !IsSpace(v[0]))
  }

  predicate PeerWellFormed(p: Peer) {
    && p.publicKey != "" && IsValue(p.publicKey) && '[' !in p.publicKey
    && (p.endpoint.Some? ==> IsValue(p.endpoint.value) && '[' !in p.endpoint.value)
    && forall a | a in p.allowedIps :: IsItem(a) && '\n' !in a && '[' !in a
  }

  ghost predicate WellFormed(c: WireGuardConfig) {
    c.privateKey != "" && FieldsWellFormed(c)
  }

  ghost predicate FieldsWellFormed(c: WireGuardConfig) {
    && IsValue(c.privateKey) && FreeOf(c.privateKey, PEER)
    && IsValue(c.address) && '/' !in c.address && FreeOf(c.address, PEER)
    && (c.dnsServers.Some? ==> forall d | d in c.dnsServers.value :: IsItem(d) && '\n' !in d && FreeOf(d, PEER))
    && forall p | p in c.peers :: PeerWellFormed(p)
  }

  /** What reading back keeps: falsy options become None, a given endpoint gets a port, the subnet keeps its length. */
  function NormalPeer(p: Peer): Peer {
    if HasText(p.endpoint) then p.(endpointPort := Some(PortOr51820(p.endpointPort)))
    else p.(endpoint := None, endpointPort := None)
  }

  function NormalPeers(peers: seq<Peer>): (r: seq<Peer>)
    ensures |r| == |peers| && forall i | 0 <= i < |r| :: r[i] == NormalPeer(peers[i])
  {
    if peers == [] then [] else [NormalPeer(peers[0])] + NormalPeers(peers[1..])
  }

  function Normal(c: WireGuardConfig): DesiredConfig {
    DesiredConfig(
      c.privateKey,
      c.address,
      "0.0.0.0/" + NatText(c.prefixLen),
      if Truthy(c.listenPort) then c.listenPort else None,
      if HasItems(c.dnsServers) then c.dnsServers else None,
      NormalPeers(c.peers),
      if Truthy(c.mtu) then c.mtu else None)
  }

  // ----- The shape of the printed text

  function FieldsText(fields: Fields): string {
    Join(Lines(fields), "\n")
  }

  function BlockText(p: Peer): string {
    PEER + "\n" + FieldsText(PeerFields(p))
  }

  function PeersText(peers: seq<Peer>): string {
    if peers == [] then "" else "\n" + BlockText(peers[0]) + "\n" + PeersText(peers[1..])
  }

  lemma SectionText(header: string, fields: Fields)
    requires |fields| > 0
    ensures Join(SectionLines(header, fields), "\n") == header + "\n" + FieldsText(fields) + "\n"
  {
    var lines := Lines(fields);
    JoinAppend([header] + lines, [""], "\n");
    JoinAppend([header], lines, "\n");
    assert Join([header] + lines, "\n") + "\n" + "" == Join([header] + lines, "\n") + "\n";
  }

  lemma {:induction false} PeersShape(first: seq<string>, peers: seq<Peer>)
    requires first != []
    ensures Join(first + PeerLines(peers), "\n") == Join(first, "\n") + PeersText(peers)
    decreases |peers|
  {
    hide Join; hide SectionLines;
    if peers == [] {
      Parts(first, []);
      Parts(Join(first, "\n"), "");
    } else {
      var section := SectionLines(PEER, PeerFields(peers[0]));
      SectionLinesNonEmpty(PEER, PeerFields(peers[0]));
      PeersShape(section, peers[1..]);
      JoinAppend(first, section + PeerLines(peers[1..]), "\n");
      SectionText(PEER, PeerFields(peers[0]));
      var j, b, rest := Join(first, "\n"), BlockText(peers[0]), PeersText(peers[1..]);
      Assoc("\n", b, "\n");
      Assoc("\n", b + "\n", rest);
      Assoc(j, "\n", b + "\n" + rest);
    }
  }

  lemma SectionLinesNonEmpty(header: string, fields: Fields)
    ensures SectionLines(header, fields) != []
  {
  }

  lemma TextShape(c: WireGuardConfig)
    ensures IniText(c) == INTERFACE + "\n" + FieldsText(InterfaceFields(c)) + "\n" + PeersText(c.peers)
  {
    assert |InterfaceFields(c)| >= 2;
    SectionLinesNonEmpty(INTERFACE, InterfaceFields(c));
    PeersShape(SectionLines(INTERFACE, InterfaceFields(c)), c.peers);
    SectionText(INTERFACE, InterfaceFields(c));
  }

  // ----- Where a pattern can begin

  lemma BeginsInside(a: string, t: string, i: nat, pat: string, sep: char)
    requires i < |a| && pat != ""
    requires a[|a| - 1] == sep || t == "" || t[0] == sep
    ensures pat <= (a + t)[i..] ==> pat <= a[i..] || sep in pat
  {
    var s := (a + t)[i..];
    if pat <= s {
      assert pat == s[..|pat|];
      if i + |pat| <= |a| {
        assert s[..|pat|] == a[i..][..|pat|];
      } else if a[|a| - 1] == sep {
        assert pat[|a| - 1 - i] == sep;
      } else {
        assert pat[|a| - i] == sep;
      }
    }
  }

  /** A pattern cannot run over a character that it does not hold. */
  lemma NoStartAcross(a: string, t: string, pat: string, sep: char)
    requires pat != "" && sep !in pat
    requires a == "" || a[|a| - 1] == sep || t == "" || t[0] == sep
    requires FreeOf(a, pat)
    ensures forall i | 0 <= i < |a| :: !(pat <= (a + t)[i..])
  {
    forall i | 0 <= i < |a|
      ensures !(pat <= (a + t)[i..])
    {
      BeginsInside(a, t, i, pat, sep);
    }
  }

  lemma FreeAround(a: string, sep: char, b: string, pat: string)
    requires pat != "" && sep !in pat && FreeOf(a, pat) && FreeOf(b, pat)
    ensures FreeOf(a + [sep] + b, pat)
  {
    var s := a + [sep] + b;
    NoStartAcross(a, [sep] + b, pat, sep);
    assert s == a + ([sep] + b);
    forall i | 0 <= i < |s|
      ensures !(pat <= s[i..])
    {
      if i > |a| {
        assert s[i..] == b[i - |a| - 1..];
      } else if i == |a| {
        assert s[i] == sep;
      }
    }
  }

  lemma FreeAfter(a: string, b: string)
    requires '[' !in a && FreeOf(b, PEER)
    ensures FreeOf(a + b, PEER)
  {
    forall i | 0 <= i < |a + b|
      ensures !(PEER <= (a + b)[i..])
    {
      if i < |a| {
        assert (a + b)[i] == a[i];
      } else {
        assert (a + b)[i..] == b[i - |a|..];
      }
    }
  }

  lemma FreeWithout(a: string)
    requires '[' !in a
    ensures FreeOf(a, PEER)
  {
    FreeAfter(a, "");
    assert a + "" == a;
  }

  lemma {:induction false} LazyEndAt(a: string, t: string, stop: string)
    requires forall i | 0 <= i < |a| :: !(stop <= (a + t)[i..])
    requires t == "" ==> a == "" || a[|a| - 1] != '\n'
    requires stop <= t || t == "" || t == "\n"
    ensures LazyEnd(a + t, stop) == |a|
  {
    if a == "" {
      assert a + t == t;
    } else {
      var s := a + t;
      assert s[0..] == s && !(stop <= s);
      assert s[1..] == a[1..] + t;
      forall i | 0 <= i < |a[1..]| ensures !(stop <= (a[1..] + t)[i..]) {
        assert (a[1..] + t)[i..] == s[i + 1..];
      }
      LazyEndAt(a[1..], t, stop);
    }
  }

  lemma {:induction false} LazyEndRange(s: string, stop: string)
    ensures var n := LazyEnd(s, stop); forall i | 0 <= i < n :: !(stop <= s[i..])
  {
    var n := LazyEnd(s, stop);
    if n > 0 {
      LazyEndRange(s[1..], stop);
      forall i | 0 <= i < n ensures !(stop <= s[i..]) {
        if i > 0 { assert s[i..] == s[1..][i - 1..]; } else { assert s[0..] == s; }
      }
    }
  }

  // ----- Lines and fields

  predicate IsKey(key: string) {
    key != "" && forall c | c in key :: IsWord(c)
  }

  predicate GoodField(f: (string, string)) {
    IsKey(f.0) && f.1 != "" && IsValue(f.1)
  }

  lemma KeyNames()
    ensures IsKey("PrivateKey") && IsKey("Address") && IsKey("ListenPort") && IsKey("DNS") && IsKey("MTU")
    ensures IsKey("PublicKey") && IsKey("Endpoint") && IsKey("AllowedIPs") && IsKey("PersistentKeepalive")
  {
  }

  predicate GoodFields(fields: Fields) {
    forall f | f in fields :: GoodField(f)
  }

  lemma {:induction false} WordEndAt(s: string, i: nat, j: nat)
    requires i <= j <= |s| && forall k | i <= k < j :: IsWord(s[k])
    requires j < |s| ==> !IsWord(s[j])
    ensures WordEnd(s, i) == j
    decreases j - i
  {
    if i < j { WordEndAt(s, i + 1, j); }
  }

  lemma {:induction false} SpaceEndAt(s: string, i: nat, j: nat)
    requires i <= j <= |s| && forall k | i <= k < j :: IsSpace(s[k])
    requires j < |s| ==> !IsSpace(s[j])
    ensures SpaceEnd(s, i) == j
    decreases j - i
  {
    if i < j { SpaceEndAt(s, i + 1, j); }
  }

  lemma {:induction false} LineEndAt(s: string, i: nat, j: nat)
    requires i <= j <= |s| && forall k | i <= k < j :: s[k] != '\n'
    requires j < |s| ==> s[j] == '\n'
    ensures LineEnd(s, i) == j
    decreases j - i
  {
    if i < j { LineEndAt(s, i + 1, j); }
  }

  /** A key, a space, "=", one or more spaces, a value and the end of the line. */
  lemma MatchAt(s: string, key: string, gap: nat, value: string)
    requires IsKey(key)
    requires value != "" && IsValue(value)
    requires |key| + 2 + gap + |value| <= |s|
    requires s[..|key|] == key && s[|key|] == ' ' && s[|key| + 1] == '='
    requires forall k | |key| + 2 <= k < |key| + 2 + gap :: IsSpace(s[k])
    requires s[|key| + 2 + gap..|key| + 2 + gap + |value|] == value
    requires |key| + 2 + gap + |value| == |s| || s[|key| + 2 + gap + |value|] == '\n'
    ensures MatchField(s) == Some(Match(key, value, |key| + 2 + gap + |value|))
  {
    KeyAt(s, key);
    ValueAt(s, |key| + 2, |key| + 2 + gap, value);
    hide WordEnd; hide SpaceEnd; hide LineEnd; hide IsKey; hide IsValue; hide IsSpace;
  }

  lemma KeyAt(s: string, key: string)
    requires IsKey(key) && |key| + 1 < |s|
    requires s[..|key|] == key && s[|key|] == ' ' && s[|key| + 1] == '='
    ensures |key| > 0 && WordEnd(s, 0) == |key| && SpaceEnd(s, |key|) == |key| + 1
  {
    var k := |key|;
    assert forall i | 0 <= i < k :: s[i] == key[i] && key[i] in key;
    WordEndAt(s, 0, k);
    SpaceEndAt(s, k, k + 1);
  }

  lemma ValueAt(s: string, i: nat, v: nat, value: string)
    requires value != "" && IsValue(value)
    requires i <= v && v + |value| <= |s| && s[v..v + |value|] == value
    requires forall k | i <= k < v :: IsSpace(s[k])
    requires v + |value| == |s| || s[v + |value|] == '\n'
    ensures SpaceEnd(s, i) == v && LineEnd(s, v) == v + |value|
  {
    assert forall k | v <= k < v + |value| :: s[k] == value[k - v];
    SpaceEndAt(s, i, v);
    LineEndAt(s, v, v + |value|);
  }

  lemma MatchLine(key: string, value: string, t: string)
    requires GoodField((key, value))
    requires t == "" || t[0] == '\n'
    ensures MatchField(Line(key, value) + t) == Some(Match(key, value, |Line(key, value)|))
  {
    MatchAt(Line(key, value) + t, key, 1, value);
  }

  lemma {:induction false} BlankHasNone(t: string, atLineStart: bool)
    requires forall i | 0 <= i < |t| :: t[i] == '\n'
    ensures KeyValues(t, atLineStart) == []
  {
    if t != "" {
      BlankHasNone(t[1..], true);
    }
  }

  lemma FieldsTextStep(fields: Fields, t: string)
    requires fields != []
    ensures FieldsText(fields) + t ==
      Line(fields[0].0, fields[0].1) + if |fields| == 1 then t else "\n" + (FieldsText(fields[1..]) + t)
  {
  }

  lemma NoLines(t: string)
    ensures FieldsText([]) + t == t
  {
  }

  lemma GoodTail(fields: Fields)
    requires GoodFields(fields) && fields != []
    ensures GoodField(fields[0]) && GoodFields(fields[1..])
  {
    hide GoodField;
  }

  // One printed line is one field.
  lemma LineThenRest(key: string, value: string, rest: string)
    requires GoodField((key, value))
    requires rest == "" || rest[0] == '\n'
    ensures KeyValues(Line(key, value) + rest, true) == [(key, value)] + KeyValues(rest, false)
  {
    var line := Line(key, value);
    MatchLine(key, value, rest);
    hide MatchField; hide Line; hide GoodField;
    assert (line + rest)[|line|..] == rest;
  }

  lemma NextLine(s: string)
    ensures KeyValues("\n" + s, false) == KeyValues(s, true)
  {
    assert ("\n" + s)[1..] == s;
  }

  /** Scanning printed lines yields exactly the fields they were printed from. */
  lemma {:induction false} FieldsOfLines(fields: Fields, t: string)
    requires GoodFields(fields)
    requires forall i | 0 <= i < |t| :: t[i] == '\n'
    ensures KeyValues(FieldsText(fields) + t, true) == fields
  {
    hide KeyValues; hide Line; hide GoodField;
    if fields == [] {
      BlankHasNone(t, true);
      NoLines(t);
    } else {
      hide FieldsText; hide GoodFields;
      var (key, value) := fields[0];
      GoodTail(fields);
      var rest := if |fields| == 1 then t else "\n" + (FieldsText(fields[1..]) + t);
      FieldsTextStep(fields, t);
      LineThenRest(key, value, rest);
      if |fields| == 1 {
        BlankHasNone(t, false);
      } else {
        FieldsOfLines(fields[1..], t);
        NextLine(FieldsText(fields[1..]) + t);
      }
      assert [fields[0]] + fields[1..] == fields;
    }
  }

  // Nothing is matched before the first newline when the text does not begin with a word at a line start.
  lemma {:induction false} SkipLine(a: string, s: string, atLineStart: bool)
    requires '\n' !in a && (atLineStart ==> a == "" || !IsWord(a[0]))
    ensures KeyValues(a + "\n" + s, atLineStart) == KeyValues(s, true)
  {
    var t := a + "\n" + s;
    if a == "" {
      assert t[1..] == s;
    } else {
      assert t[1..] == a[1..] + "\n" + s;
      SkipLine(a[1..], s, false);
    }
  }

  // ----- Looking fields up

  lemma GetLast(fields: Fields, key: string, value: string, wanted: string)
    ensures Get(fields + [(key, value)], wanted) == if key == wanted then value else Get(fields, wanted)
  {
    var all := fields + [(key, value)];
    assert all[..|all| - 1] == fields;
  }

  /** The optional fields of an interface, looked up by name. */
  lemma InterfaceLookup(c: WireGuardConfig, first: Fields, key: string)
    ensures Get(first + OptionalFields(c), key) ==
      if Truthy(c.mtu) && "MTU" == key then IntText(c.mtu.value)
      else if HasItems(c.dnsServers) && "DNS" == key then Join(c.dnsServers.value, ", ")
      else if Truthy(c.listenPort) && "ListenPort" == key then IntText(c.listenPort.value)
      else Get(first, key)
  {
    var listen := if Truthy(c.listenPort) then [("ListenPort", IntText(c.listenPort.value))] else [];
    var dns := if HasItems(c.dnsServers) then [("DNS", Join(c.dnsServers.value, ", "))] else [];
    var mtu := if Truthy(c.mtu) then [("MTU", IntText(c.mtu.value))] else [];
    assert OptionalFields(c) == listen + dns + mtu;
    assert first + (listen + dns + mtu) == first + listen + dns + mtu;
    if Truthy(c.listenPort) { GetLast(first, "ListenPort", IntText(c.listenPort.value), key); }
    else { assert first + listen == first; }
    if HasItems(c.dnsServers) { GetLast(first + listen, "DNS", Join(c.dnsServers.value, ", "), key); }
    else { assert first + listen + dns == first + listen; }
    if Truthy(c.mtu) { GetLast(first + listen + dns, "MTU", IntText(c.mtu.value), key); }
    else { assert first + listen + dns + mtu == first + listen + dns; }
  }

  /** The fields of a peer, looked up by name. */
  lemma PeerLookup(p: Peer, key: string)
    ensures Get(PeerFields(p), key) ==
      if p.persistentKeepalive.Some? && "PersistentKeepalive" == key then IntText(p.persistentKeepalive.value)
      else if p.allowedIps != [] && "AllowedIPs" == key then Join(p.allowedIps, ", ")
      else if HasText(p.endpoint) && "Endpoint" == key then
        p.endpoint.value + ":" + IntText(PortOr51820(p.endpointPort))
      else if "PublicKey" == key then p.publicKey
      else ""
  {
    var first := [("PublicKey", p.publicKey)];
    assert first == [] + first;
    GetLast([], "PublicKey", p.publicKey, key);
    var ep := if HasText(p.endpoint) then [("Endpoint", p.endpoint.value + ":" + IntText(PortOr51820(p.endpointPort)))] else [];
    var ips := if p.allowedIps != [] then [("AllowedIPs", Join(p.allowedIps, ", "))] else [];
    var ka := if p.persistentKeepalive.Some? then [("PersistentKeepalive", IntText(p.persistentKeepalive.value))] else [];
    assert PeerFields(p) == first + ep + ips + ka;
    if HasText(p.endpoint) {
      GetLast(first, "Endpoint", p.endpoint.value + ":" + IntText(PortOr51820(p.endpointPort)), key);
    } else { assert first + ep == first; }
    if p.allowedIps != [] { GetLast(first + ep, "AllowedIPs", Join(p.allowedIps, ", "), key); }
    else { assert first + ep + ips == first + ep; }
    if p.persistentKeepalive.Some? {
      GetLast(first + ep + ips, "PersistentKeepalive", IntText(p.persistentKeepalive.value), key);
    } else { assert first + ep + ips + ka == first + ep + ips; }
  }

  // ----- Printed values are values

  lemma {:induction false} JoinChars(items: seq<string>, c: char)
    requires items != [] && c != ',' && c != ' '
    requires forall t | t in items :: IsItem(t) && c !in t
    ensures items[0] != ""
    ensures var s := Join(items, ", "); s != "" && s[0] == items[0][0] && c !in s
  {
    assert items[0] in items;
    if |items| > 1 {
      JoinChars(items[1..], c);
    }
  }

  lemma {:induction false} JoinFree(items: seq<string>)
    requires items != [] && forall t | t in items :: FreeOf(t, PEER)
    ensures FreeOf(Join(items, ", "), PEER)
  {
    assert items[0] in items;
    if |items| > 1 {
      JoinFree(items[1..]);
      var rest := Join(items[1..], ", ");
      FreeAfter(" ", rest);
      FreeAround(items[0], ',', " " + rest, PEER);
      assert ", " == [','] + " ";
      Assoc([','], " ", rest);
      Assoc(items[0], ", ", rest);
      Assoc(items[0], [','], " " + rest);
    }
  }

  lemma NumberIsValue(n: int)
    ensures IntText(n) != "" && IsValue(IntText(n)) && '[' !in IntText(n) && FreeOf(IntText(n), PEER) && ':' !in IntText(n)
  {
    FreeWithout(IntText(n));
    assert IntText(n)[0] in IntText(n);
  }

  function AddressValue(c: WireGuardConfig): string {
    c.address + "/" + NatText(c.prefixLen)
  }

  lemma AddressIsValue(c: WireGuardConfig)
    requires FieldsWellFormed(c)
    ensures GoodField(("Address", AddressValue(c))) && FreeOf(AddressValue(c), PEER)
  {
    KeyNames();
    hide IsKey;
    FreeWithout(NatText(c.prefixLen));
    FreeAround(c.address, '/', NatText(c.prefixLen), PEER);
  }

  lemma OptionalFieldsGood(c: WireGuardConfig)
    requires FieldsWellFormed(c)
    ensures GoodFields(OptionalFields(c))
    ensures forall f | f in OptionalFields(c) :: FreeOf(f.1, PEER)
  {
    KeyNames();
    hide IsKey;
    forall f | f in OptionalFields(c)
      ensures GoodField(f) && FreeOf(f.1, PEER)
    {
      if Truthy(c.listenPort) && f == ("ListenPort", IntText(c.listenPort.value)) {
        NumberIsValue(c.listenPort.value);
      } else if Truthy(c.mtu) && f == ("MTU", IntText(c.mtu.value)) {
        NumberIsValue(c.mtu.value);
      } else {
        JoinChars(c.dnsServers.value, '\n');
        JoinFree(c.dnsServers.value);
      }
    }
  }

  lemma PeerFieldCases(p: Peer, f: (string, string))
    requires f in PeerFields(p)
    ensures f == ("PublicKey", p.publicKey)
      || (HasText(p.endpoint) && f == ("Endpoint", p.endpoint.value + ":" + IntText(PortOr51820(p.endpointPort))))
      || (p.allowedIps != [] && f == ("AllowedIPs", Join(p.allowedIps, ", ")))
      || (p.persistentKeepalive.Some? && f == ("PersistentKeepalive", IntText(p.persistentKeepalive.value)))
  {
  }

  lemma PeerFieldsGood(p: Peer)
    requires PeerWellFormed(p)
    ensures GoodFields(PeerFields(p))
    ensures forall f | f in PeerFields(p) :: '[' !in f.1
  {
    KeyNames();
    hide IsKey; hide PeerFields;
    forall f | f in PeerFields(p)
      ensures GoodField(f) && '[' !in f.1
    {
      PeerFieldCases(p, f);
      PeerFieldGood(p, f);
    }
  }

  lemma PeerFieldGood(p: Peer, f: (string, string))
    requires PeerWellFormed(p) && IsKey(f.0)
    requires f == ("PublicKey", p.publicKey)
      || (HasText(p.endpoint) && f == ("Endpoint", p.endpoint.value + ":" + IntText(PortOr51820(p.endpointPort))))
      || (p.allowedIps != [] && f == ("AllowedIPs", Join(p.allowedIps, ", ")))
      || (p.persistentKeepalive.Some? && f == ("PersistentKeepalive", IntText(p.persistentKeepalive.value)))
    ensures GoodField(f) && '[' !in f.1
  {
    hide IsKey; hide IntText; hide Join; hide IsSpace;
    if f.1 == p.publicKey {
    } else if p.allowedIps != [] && f.1 == Join(p.allowedIps, ", ") {
      JoinChars(p.allowedIps, '\n');
      JoinChars(p.allowedIps, '[');
      assert p.allowedIps[0] in p.allowedIps;
    } else {
      NumberIsValue(PortOr51820(p.endpointPort));
      if p.persistentKeepalive.Some? { NumberIsValue(p.persistentKeepalive.value); }
      if HasText(p.endpoint) {
        assert (p.endpoint.value + ":" + IntText(PortOr51820(p.endpointPort)))[0] == p.endpoint.value[0];
      }
    }
  }

  lemma {:induction false} FieldsTextFree(fields: Fields)
    requires forall f | f in fields :: IsKey(f.0) && FreeOf(f.1, PEER)
    ensures FreeOf(FieldsText(fields), PEER)
  {
    if fields != [] {
      var (key, value) := fields[0];
      assert fields[0] in fields;
      FreeAfter(key + " = ", value);
      if |fields| > 1 {
        FieldsTextFree(fields[1..]);
        FreeAround(Line(key, value), '\n', FieldsText(fields[1..]), PEER);
      }
    }
  }

  lemma {:induction false} FieldsTextChars(fields: Fields)
    requires forall f | f in fields :: IsKey(f.0) && '[' !in f.1
    ensures '[' !in FieldsText(fields)
  {
    if fields != [] {
      assert fields[0] in fields;
      if |fields| > 1 {
        FieldsTextChars(fields[1..]);
      }
    }
  }

  // ----- The interface section

  /** What ends the interface section of a printed text. */
  function SectionEnd(c: WireGuardConfig): string {
    if c.peers == [] then "" else "\n\n"
  }

  // The text up to the first peer.
  function Head(c: WireGuardConfig): string {
    INTERFACE + "\n" + FieldsText(InterfaceFields(c)) + SectionEnd(c)
  }

  function Tail(c: WireGuardConfig): string {
    if c.peers == [] then "\n" else PeersText(c.peers)[1..]
  }

  lemma HeadAndTail(c: WireGuardConfig)
    ensures IniText(c) == Head(c) + Tail(c)
    ensures Tail(c) == "\n" || PEER <= Tail(c)
  {
    TextShape(c);
    var h := INTERFACE + "\n" + FieldsText(InterfaceFields(c));
    if c.peers == [] {
      assert h + "" == h;
    } else {
      assert PeersText(c.peers) == "\n" + Tail(c);
      assert h + "\n" + ("\n" + Tail(c)) == h + "\n\n" + Tail(c);
    }
  }

  lemma InterfaceFree(c: WireGuardConfig)
    requires FieldsWellFormed(c)
    ensures FreeOf("\n" + FieldsText(InterfaceFields(c)) + SectionEnd(c), PEER)
    ensures FreeOf(Head(c), PEER)
  {
    var fields := InterfaceFields(c);
    KeyNames();
    AddressIsValue(c);
    OptionalFieldsGood(c);
    hide IsKey;
    FieldsTextFree(fields);
    var f := FieldsText(fields);
    FreeWithout("");
    FreeWithout("\n");
    FreeAround("", '\n', f, PEER);
    assert "\n" + f + "" == "\n" + f == "" + ['\n'] + f;
    FreeAround("\n" + f, '\n', "\n", PEER);
    assert "\n" + f + "\n\n" == "\n" + f + ['\n'] + "\n";
    var rest := f + SectionEnd(c);
    assert FreeOf(rest, PEER) by {
      assert "\n" + f + SectionEnd(c) == "\n" + rest;
      assert rest == ("\n" + rest)[1..|"\n" + rest|];
      WithinInherits(rest, "\n" + rest, PEER);
    }
    FreeOfInterface();
    FreeAround(INTERFACE, '\n', rest, PEER);
    assert Head(c) == INTERFACE + ['\n'] + rest;
  }

  lemma FreeOfInterface()
    ensures FreeOf(INTERFACE, PEER)
  {
    assert 'P' !in INTERFACE && PEER[1] == 'P' && |PEER| == 6;
    forall i | 0 <= i < |INTERFACE| ensures !(PEER <= INTERFACE[i..]) {
      assert i + 1 < |INTERFACE| ==> INTERFACE[i..][1] == INTERFACE[i + 1];
    }
  }

  lemma HeadIs(c: WireGuardConfig)
    ensures Head(c) == INTERFACE + ("\n" + FieldsText(InterfaceFields(c)) + SectionEnd(c))
  {
    hide FieldsText; hide SectionEnd;
    var f, e := FieldsText(InterfaceFields(c)), SectionEnd(c);
    assert INTERFACE + "\n" + f + e == INTERFACE + ("\n" + f + e);
  }

  lemma SectionOfText(c: WireGuardConfig)
    requires FieldsWellFormed(c)
    ensures InterfaceSection(IniText(c)) == Some("\n" + (FieldsText(InterfaceFields(c)) + SectionEnd(c)))
  {
    var f := FieldsText(InterfaceFields(c));
    var a := "\n" + f + SectionEnd(c);
    var t := Tail(c);
    HeadAndTail(c);
    InterfaceFree(c);
    HeadIs(c);
    hide Head; hide Tail; hide SectionEnd; hide FieldsText; hide IniText; hide InterfaceSection;
    NoStartAcross(a, t, PEER, '\n');
    LazyEndAt(a, t, PEER);
    hide FreeOf; hide LazyEnd;
    SectionAtStart(a, t);
    Assoc("\n", f, SectionEnd(c));
  }

  lemma SectionAtStart(a: string, t: string)
    requires LazyEnd(a + t, PEER) == |a|
    ensures InterfaceSection(INTERFACE + a + t) == Some(a)
  {
    var ini := INTERFACE + (a + t);
    Assoc(INTERFACE, a, t);
    Parts(INTERFACE, a + t);
    Parts(a, t);
    hide LazyEnd;
    assert INTERFACE <= ini;
    assert Find(ini, INTERFACE) == Some(0);
  }

  // ----- The peer blocks

  function Blocks(peers: seq<Peer>): (r: seq<string>)
    ensures |r| == |peers|
  {
    if peers == [] then []
    else if |peers| == 1 then [BlockText(peers[0])]
    else [BlockText(peers[0]) + "\n\n"] + Blocks(peers[1..])
  }

  lemma {:induction false} SkipTo(a: string, t: string)
    requires forall i | 0 <= i < |a| :: !(PEER <= (a + t)[i..])
    ensures PeerBlocks(a + t) == PeerBlocks(t)
  {
    Parts(a, t);
    if a != "" {
      var s := a + t;
      assert s[0..] == s;
      forall i | 0 <= i < |a[1..]| ensures !(PEER <= (a[1..] + t)[i..]) {
        DropOfDrop(s, 1, i);
      }
      SkipTo(a[1..], t);
    }
  }

  // One block, up to what follows it.
  lemma BlockStep(b: string, t: string)
    requires '[' !in b
    requires (t == "\n" && (b == "" || b[|b| - 1] != '\n')) || PEER <= t
    ensures PeerBlocks(PEER + b + t) == [PEER + b] + PeerBlocks(t)
  {
    var s := PEER + b + t;
    Assoc(PEER, b, t);
    Parts(PEER, b + t);
    forall i | 0 <= i < |b| ensures !("[" <= (b + t)[i..]) {
      assert (b + t)[i..][0] == b[i];
    }
    if t == "\n" {
      LazyEndAt(b, t, "[");
    } else {
      assert "[" <= t;
      LazyEndAt(b, t, "[");
    }
    Parts(PEER + b, t);
  }

  lemma {:induction false} BlocksOfText(peers: seq<Peer>)
    requires peers != [] && forall p | p in peers :: PeerWellFormed(p)
    ensures PeersText(peers) != "" && PEER <= PeersText(peers)[1..]
    ensures PeerBlocks(PeersText(peers)[1..]) == Blocks(peers)
    decreases |peers|
  {
    var p, rest := peers[0], peers[1..];
    assert p in peers;
    var f := FieldsText(PeerFields(p));
    PeerFieldsGood(p);
    FieldsTextChars(PeerFields(p));
    PeersTextStep(peers);
    if rest == [] {
      LastIsNotNewline(PeerFields(p));
      BlockStep("\n" + f, "\n");
      assert PeerBlocks("\n") == [];
    } else {
      BlocksOfText(rest);
      BlockStep("\n" + f + "\n\n", PeersText(rest)[1..]);
    }
  }

  lemma PeersTextStep(peers: seq<Peer>)
    requires peers != []
    ensures var p, rest := peers[0], peers[1..];
      var f := FieldsText(PeerFields(p));
      && PeersText(peers) == "\n" + PeersText(peers)[1..]
      && BlockText(p) == PEER + ("\n" + f)
      && BlockText(p) + "\n\n" == PEER + ("\n" + f + "\n\n")
      && (rest == [] ==> PeersText(peers)[1..] == PEER + ("\n" + f) + "\n")
      && (rest != [] ==> PeersText(rest) != "" && PeersText(peers)[1..] == PEER + ("\n" + f + "\n\n") + PeersText(rest)[1..])
  {
    var p, rest := peers[0], peers[1..];
    var f := FieldsText(PeerFields(p));
    var more := PeersText(rest);
    Regroup(PEER, f, more);
    if rest != [] {
      Parts("\n", BlockText(rest[0]) + "\n" + PeersText(rest[1..]));
      Assoc("\n", BlockText(rest[0]), "\n");
      Assoc("\n", BlockText(rest[0]) + "\n", PeersText(rest[1..]));
      assert more == "\n" + more[1..];
      RegroupNext(PEER, f, more[1..]);
    }
  }

  lemma Regroup(header: string, f: string, more: string)
    ensures "\n" + (header + "\n" + f) + "\n" + more == "\n" + (header + ("\n" + f) + "\n" + more)
    ensures header + "\n" + f == header + ("\n" + f)
    ensures header + "\n" + f + "\n\n" == header + ("\n" + f + "\n\n")
    ensures more == "" ==> header + ("\n" + f) + "\n" + more == header + ("\n" + f) + "\n"
  {
  }

  lemma RegroupNext(header: string, f: string, more: string)
    ensures header + ("\n" + f) + "\n" + ("\n" + more) == header + ("\n" + f + "\n\n") + more
  {
  }

  lemma {:induction false} LastIsNotNewline(fields: Fields)
    requires fields != [] && GoodFields(fields)
    ensures var s := FieldsText(fields); s != "" && s[|s| - 1] != '\n'
  {
    assert fields[0] in fields;
    if |fields| > 1 {
      LastIsNotNewline(fields[1..]);
    } else {
      var v := fields[0].1;
      assert Line(fields[0].0, v)[|Line(fields[0].0, v)| - 1] == v[|v| - 1];
    }
  }

  lemma BlocksOfConfig(c: WireGuardConfig)
    requires FieldsWellFormed(c)
    ensures PeerBlocks(IniText(c)) == Blocks(c.peers)
  {
    HeadAndTail(c);
    InterfaceFree(c);
    if c.peers == [] {
      NoStartAcross(Head(c), Tail(c), PEER, '\n');
      SkipTo(Head(c), Tail(c));
      assert PeerBlocks("\n") == [];
    } else {
      NoStartAcross(Head(c), Tail(c), PEER, '\n');
      SkipTo(Head(c), Tail(c));
      BlocksOfText(c.peers);
    }
  }

  lemma EndpointRoundTrip(e: string, port: int)
    ensures ParseEndpoint(e + ":" + IntText(port)) == (Some(e), Some(port))
  {
    NumberIsValue(port);
    IntRoundTrip(port);
    LastIndexAt(e, ':', IntText(port));
  }

  lemma {:induction false} LastIndexAt(a: string, c: char, b: string)
    requires c !in b
    ensures c in a + [c] + b && LastIndexOf(a + [c] + b, c) == |a|
    ensures (a + [c] + b)[..|a|] == a && (a + [c] + b)[|a| + 1..] == b
  {
    var s := a + [c] + b;
    assert s[|a|] == c;
    if b != "" {
      assert s[..|s| - 1] == a + [c] + b[..|b| - 1];
      LastIndexAt(a, c, b[..|b| - 1]);
    }
  }

  lemma BlockRoundTrip(p: Peer, t: string)
    requires PeerWellFormed(p) && (t == "" || t == "\n\n")
    ensures ParseBlock(BlockText(p) + t) == Found(NormalPeer(p))
  {
    BlockValues(p, t);
    PeerLookups(p);
    ItemsReadBack(p.allowedIps);
    if HasText(p.endpoint) { EndpointRoundTrip(p.endpoint.value, PortOr51820(p.endpointPort)); }
    if p.persistentKeepalive.Some? { IntRoundTrip(p.persistentKeepalive.value); }
    hide KeyValues; hide Get; hide PeerFields; hide BlockText; hide Items; hide Join; hide IntText; hide IntValue;
  }

  lemma BlockValues(p: Peer, t: string)
    requires PeerWellFormed(p) && (t == "" || t == "\n\n")
    ensures KeyValues(BlockText(p) + t, true) == PeerFields(p)
  {
    var fields := PeerFields(p);
    PeerFieldsGood(p);
    FieldsOfLines(fields, t);
    SkipLine(PEER, FieldsText(fields) + t, true);
    assert BlockText(p) + t == PEER + "\n" + (FieldsText(fields) + t);
    hide KeyValues; hide PeerFields;
  }

  lemma ItemsReadBack(items: seq<string>)
    requires forall a | a in items :: IsItem(a)
    ensures Items(if items != [] then Join(items, ", ") else "") == items
  {
    if items != [] {
      ItemsOfJoin(items, "");
      assert "" + Join(items, ", ") == Join(items, ", ");
    } else {
      NoItems();
    }
    hide Items; hide Join; hide IsItem;
  }

  // The four fields that a block is read from.
  lemma PeerLookups(p: Peer)
    ensures Get(PeerFields(p), "PublicKey") == p.publicKey
    ensures Get(PeerFields(p), "Endpoint") ==
      if HasText(p.endpoint) then p.endpoint.value + ":" + IntText(PortOr51820(p.endpointPort)) else ""
    ensures Get(PeerFields(p), "AllowedIPs") == if p.allowedIps != [] then Join(p.allowedIps, ", ") else ""
    ensures Get(PeerFields(p), "PersistentKeepalive") ==
      if p.persistentKeepalive.Some? then IntText(p.persistentKeepalive.value) else ""
  {
    hide Get; hide PeerFields; hide Join; hide IntText;
    PeerLookup(p, "PublicKey");
    PeerLookup(p, "Endpoint");
    PeerLookup(p, "AllowedIPs");
    PeerLookup(p, "PersistentKeepalive");
  }

  lemma NoItems()
    ensures Items("") == []
  {
    assert Split("", ',') == [""];
    assert StrippedNonEmpty([""]) == StrippedNonEmpty([]);
  }

  lemma {:induction false} PeersRoundTrip(peers: seq<Peer>)
    requires forall p | p in peers :: PeerWellFormed(p)
    ensures ParseBlocks(Blocks(peers)) == Some(NormalPeers(peers))
  {
    hide ParseBlock; hide BlockText; hide NormalPeer;
    if peers != [] {
      assert peers[0] in peers;
      if |peers| == 1 {
        BlockRoundTrip(peers[0], "");
        assert BlockText(peers[0]) + "" == BlockText(peers[0]);
        assert Blocks(peers)[1..] == [] && peers[1..] == [];
      } else {
        BlockRoundTrip(peers[0], "\n\n");
        PeersRoundTrip(peers[1..]);
      }
    }
  }

  // ----- The interface fields

  lemma AddressRoundTrip(c: WireGuardConfig)
    requires '/' !in c.address
    ensures Split(AddressValue(c), '/') == [c.address, NatText(c.prefixLen)]
  {
    SplitFirst(c.address, NatText(c.prefixLen), '/');
    SplitFirst(NatText(c.prefixLen), "", '/');
  }

  // What the optional fields of a printed interface hold, "" when they are not printed.
  function NumberValue(n: Option<int>): string {
    if Truthy(n) then IntText(n.value) else ""
  }

  function DnsValue(c: WireGuardConfig): string {
    if HasItems(c.dnsServers) then Join(c.dnsServers.value, ", ") else ""
  }

  lemma SectionLookups(c: WireGuardConfig, first: Fields)
    requires forall f | f in first :: f.0 == "PrivateKey" || f.0 == "Address"
    ensures var all := first + OptionalFields(c);
      && Get(all, "PrivateKey") == Get(first, "PrivateKey")
      && Get(all, "Address") == Get(first, "Address")
      && Get(all, "ListenPort") == NumberValue(c.listenPort)
      && Get(all, "DNS") == DnsValue(c)
      && Get(all, "MTU") == NumberValue(c.mtu)
  {
    hide Get; hide OptionalFields; hide IntText; hide Join;
    InterfaceLookup(c, first, "PrivateKey");
    InterfaceLookup(c, first, "Address");
    InterfaceLookup(c, first, "DNS");
    InterfaceLookup(c, first, "ListenPort");
    InterfaceLookup(c, first, "MTU");
    Missing(first, "DNS");
    Missing(first, "ListenPort");
    Missing(first, "MTU");
  }

  lemma NumberRoundTrip(n: Option<int>)
    ensures OptionalInt(NumberValue(n)) == Some(if Truthy(n) then n else None)
  {
    if Truthy(n) { IntRoundTrip(n.value); }
    hide IntText; hide IntValue;
  }

  lemma DnsRoundTrip(c: WireGuardConfig)
    requires FieldsWellFormed(c)
    ensures HasItems(c.dnsServers) <==> DnsValue(c) != ""
    ensures HasItems(c.dnsServers) ==> Items(DnsValue(c)) == c.dnsServers.value
  {
    if HasItems(c.dnsServers) {
      var items := c.dnsServers.value;
      JoinChars(items, '\n');
      ItemsOfJoin(items, "");
      hide Items;
      Parts("", Join(items, ", "));
    }
  }

  /** Reading the interface section, given what its "PrivateKey" and "Address" fields turn out to be. */
  lemma SectionRoundTrip(c: WireGuardConfig, section: string, first: Fields, peers: seq<Peer>)
    requires FieldsWellFormed(c)
    requires KeyValues(section, true) == first + OptionalFields(c)
    requires forall f | f in first :: f.0 == "PrivateKey" || f.0 == "Address"
    ensures ParseSections(section, peers).Parsed?
    ensures var d := ParseSections(section, peers).config;
      && d.privateKey == Get(first, "PrivateKey")
      && (Get(first, "Address") == AddressValue(c) && Get(first, "PrivateKey") == c.privateKey ==>
            d == Normal(c).(peers := peers))
  {
    SectionLookups(c, first);
    AddressRoundTrip(c);
    NumberRoundTrip(c.listenPort);
    NumberRoundTrip(c.mtu);
    DnsRoundTrip(c);
    hide KeyValues; hide Get; hide OptionalFields; hide Items; hide Split; hide AddressValue;
    hide NumberValue; hide DnsValue; hide NatText; hide FieldsWellFormed;
  }

  lemma {:induction false} Missing(fields: Fields, key: string)
    requires forall f | f in fields :: f.0 != key
    ensures Get(fields, key) == ""
  {
    if fields != [] {
      assert fields[|fields| - 1] in fields;
      Missing(fields[..|fields| - 1], key);
    }
  }

  /** Every well-formed configuration is read back as its normal form. */
  lemma RoundTrip(c: WireGuardConfig)
    requires WellFormed(c)
    ensures ParseIni(IniText(c)) == Parsed(Normal(c))
  {
    SectionOfText(c);
    BlocksOfConfig(c);
    PeersRoundTrip(c.peers);
    SectionFields(c);
    var first := [("PrivateKey", c.privateKey), ("Address", AddressValue(c))];
    FirstTwo(c.privateKey, AddressValue(c));
    SectionRoundTrip(c, SectionText'(c), first, NormalPeers(c.peers));
    hide ParseSections; hide Blocks; hide NormalPeers; hide ParseBlocks;
  }

  function SectionText'(c: WireGuardConfig): string {
    "\n" + (FieldsText(InterfaceFields(c)) + SectionEnd(c))
  }

  lemma FirstTwo(key: string, address: string)
    ensures var first := [("PrivateKey", key), ("Address", address)];
      Get(first, "PrivateKey") == key && Get(first, "Address") == address
  {
    var one := [("PrivateKey", key)];
    assert [("PrivateKey", key), ("Address", address)] == one + [("Address", address)] && one == [] + one;
    GetLast([], "PrivateKey", key, "PrivateKey");
    GetLast(one, "Address", address, "PrivateKey");
    GetLast(one, "Address", address, "Address");
  }

  lemma SectionFields(c: WireGuardConfig)
    requires WellFormed(c)
    ensures KeyValues(SectionText'(c), true) == InterfaceFields(c)
  {
    var fields := InterfaceFields(c);
    AddressIsValue(c);
    OptionalFieldsGood(c);
    KeyNames();
    hide IsKey;
    var end := SectionEnd(c);
    assert forall i | 0 <= i < |end| :: end[i] == '\n';
    hide OptionalFields; hide AddressValue; hide WellFormed;
    FieldsOfLines(fields, end);
    SkipLine("", FieldsText(fields) + end, true);
    Assoc("", "\n", FieldsText(fields) + end);
    Parts("", SectionText'(c));
  }

  // ----- What the parser can return

  lemma MatchRange(s: string)
    requires MatchField(s).Some?
    ensures var m := MatchField(s).value; IsValue(m.value) && Within(m.value, s)
  {
    var v := SpaceEnd(s, SpaceEnd(s, WordEnd(s, 0)) + 1);
    assert MatchField(s).value.value == s[v..LineEnd(s, v)];
  }

  /** A matched value is part of the text, without newline and without leading space. */
  lemma {:induction false} FieldsRange(s: string, atLineStart: bool)
    ensures forall f | f in KeyValues(s, atLineStart) :: IsValue(f.1) && Within(f.1, s)
    decreases |s|
  {
    hide MatchField; hide IsValue;
    if s != [] {
      var m := MatchField(s);
      var rest := if atLineStart && m.Some? then s[m.value.len..] else s[1..];
      assert rest == s[|s| - |rest|..|s|];
      if atLineStart && m.Some? {
        MatchRange(s);
        FieldsRange(rest, false);
      } else {
        FieldsRange(rest, s[0] == '\n');
      }
      forall f | f in KeyValues(s, atLineStart)
        ensures IsValue(f.1) && Within(f.1, s)
      {
        if Within(f.1, rest) { WithinTrans(f.1, rest, s); }
      }
    }
  }

  lemma {:induction false} GetRange(fields: Fields, key: string)
    ensures Get(fields, key) == "" || exists f | f in fields :: f.1 == Get(fields, key)
  {
    if fields != [] {
      var last := fields[|fields| - 1];
      assert last in fields;
      GetRange(fields[..|fields| - 1], key);
    }
  }

  lemma ValueRange(s: string, atLineStart: bool, key: string)
    ensures var v := Get(KeyValues(s, atLineStart), key); IsValue(v) && Within(v, s)
  {
    FieldsRange(s, atLineStart);
    GetRange(KeyValues(s, atLineStart), key);
    assert s[0..0] == "";
  }

  lemma ItemsOfValue(v: string, c: char)
    requires c !in v
    ensures forall t | t in Items(v) :: IsItem(t) && c !in t
  {
    ItemsRange(v);
    forall t | t in Items(v) ensures c !in t {
      WithinInherits(t, v, "x");
    }
  }

  /** What an interface section yields holds no newline and no "[Peer]". */
  lemma SectionRange(section: string, peers: seq<Peer>)
    requires FreeOf(section, PEER)
    ensures ParseSections(section, peers).Parsed? ==>
      var d := ParseSections(section, peers).config;
      && d.peers == peers
      && IsValue(d.privateKey) && FreeOf(d.privateKey, PEER)
      && IsValue(d.address) && '/' !in d.address && FreeOf(d.address, PEER)
      && (d.dnsServers.Some? ==>
            forall t | t in d.dnsServers.value :: IsItem(t) && '\n' !in t && FreeOf(t, PEER))
  {
    var kv := KeyValues(section, true);
    var key, raw, dns := Get(kv, "PrivateKey"), Get(kv, "Address"), Get(kv, "DNS");
    ValueRange(section, true, "PrivateKey");
    WithinInherits(key, section, PEER);
    ValueRange(section, true, "Address");
    var address := Split(raw, '/')[0];
    assert address == raw[0..IndexOf(raw, '/')] by { FirstPart(raw, '/'); }
    WithinTrans(address, raw, section);
    WithinInherits(address, section, PEER);
    ValueRange(section, true, "DNS");
    ItemsOfValue(dns, '\n');
    ItemsRange(dns);
    forall t | t in Items(dns) ensures FreeOf(t, PEER) {
      WithinTrans(t, dns, section);
      WithinInherits(t, section, PEER);
    }
    hide KeyValues; hide Get; hide Items; hide Split; hide FreeOf; hide Within;
  }

  lemma FirstPart(s: string, c: char)
    ensures var n := IndexOf(s, c); Split(s, c)[0] == s[..n] == s[0..n]
  {
  }

  lemma SectionFree(ini: string)
    ensures InterfaceSection(ini).Some? ==> FreeOf(InterfaceSection(ini).value, PEER)
  {
    if InterfaceSection(ini).Some? {
      var body := ini[Find(ini, INTERFACE).value + |INTERFACE|..];
      LazyFree(body);
    }
    hide FreeOf; hide LazyEnd; hide Find;
  }

  lemma LazyFree(body: string)
    ensures FreeOf(body[..LazyEnd(body, PEER)], PEER)
  {
    var n := LazyEnd(body, PEER);
    LazyEndRange(body, PEER);
    hide LazyEnd;
    forall i | 0 <= i < n
      ensures !(PEER <= body[..n][i..])
    {
      BeginsInPrefix(body, n, i, PEER);
    }
  }

  lemma BeginsInPrefix(s: string, n: nat, i: nat, pat: string)
    requires i <= n <= |s|
    ensures pat <= s[..n][i..] ==> pat <= s[i..]
  {
    assert s[i..] == s[..n][i..] + s[n..];
  }

  predicate IsBlock(b: string) {
    b != "" && !IsWord(b[0]) && '[' !in b[1..]
  }

  lemma {:induction false} BlocksRange(s: string)
    ensures forall b | b in PeerBlocks(s) :: IsBlock(b)
    decreases |s|
  {
    if s != [] {
      if PEER <= s {
        var t := s[|PEER|..];
        var n := LazyEnd(t, "[");
        LazyEndRange(t, "[");
        forall i | 0 <= i < n ensures t[i] != '[' {
          assert !("[" <= t[i..]);
          assert "[" <= t[i..] <==> t[i..][0] == '[';
        }
        assert s[..|PEER| + n] == PEER + t[..n];
        Parts(PEER, t[..n]);
        assert PEER[1..] == "Peer]";
        BlocksRange(s[|PEER| + n..]);
      } else {
        BlocksRange(s[1..]);
      }
    }
  }

  /** What a block yields holds no newline and no bracket. */
  lemma BlockRange(block: string)
    requires IsBlock(block)
    ensures ParseBlock(block).Found? ==> PeerWellFormed(ParseBlock(block).peer)
  {
    var rest := block[1..];
    var kv := KeyValues(block, true);
    assert MatchField(block).None?;
    assert kv == KeyValues(rest, block[0] == '\n');
    BlockValue(rest, block[0] == '\n', "PublicKey");
    BlockValue(rest, block[0] == '\n', "Endpoint");
    BlockValue(rest, block[0] == '\n', "AllowedIPs");
    ItemsOfValue(Get(kv, "AllowedIPs"), '\n');
    ItemsOfValue(Get(kv, "AllowedIPs"), '[');
    hide KeyValues; hide Get; hide Items; hide OptionalInt; hide LastIndexOf;
    var raw := Get(kv, "Endpoint");
    assert forall n | 0 <= n <= |raw| :: IsValue(raw[..n]) && '[' !in raw[..n];
  }

  lemma BlockValue(s: string, atLineStart: bool, key: string)
    requires '[' !in s
    ensures var v := Get(KeyValues(s, atLineStart), key); IsValue(v) && '[' !in v
  {
    ValueRange(s, atLineStart, key);
    WithinInherits(Get(KeyValues(s, atLineStart), key), s, PEER);
  }

  lemma {:induction false} PeersRange(blocks: seq<string>)
    requires forall b | b in blocks :: IsBlock(b)
    ensures ParseBlocks(blocks).Some? ==> forall p | p in ParseBlocks(blocks).value :: PeerWellFormed(p)
  {
    hide ParseBlock; hide PeerWellFormed; hide IsBlock;
    if blocks != [] {
      assert blocks[0] in blocks;
      BlockRange(blocks[0]);
      PeersRange(blocks[1..]);
    }
  }

  /** Only configurations whose fields are well formed can be read back. */
  lemma OnlyWellFormedFields(c: WireGuardConfig)
    requires ParseIni(IniText(c)) == Parsed(Normal(c))
    ensures FieldsWellFormed(c)
  {
    var ini := IniText(c);
    hide IniText; hide ParseSections; hide ParseBlocks; hide PeerBlocks; hide InterfaceSection; hide IsBlock;
    SectionFree(ini);
    BlocksRange(ini);
    PeersRange(PeerBlocks(ini));
    var peers := ParseBlocks(PeerBlocks(ini)).value;
    SectionRange(InterfaceSection(ini).value, peers);
    assert peers == NormalPeers(c.peers);
    forall p | p in c.peers ensures PeerWellFormed(p) {
      var i :| 0 <= i < |c.peers| && c.peers[i] == p;
      assert NormalPeers(c.peers)[i] in peers;
      assert PeerWellFormed(NormalPeer(p));
    }
  }

  // ----- An empty private key

  /** With no private key the pattern runs on to the next line: the key read is the address line. */
  lemma EmptyKeyFields(c: WireGuardConfig)
    requires FieldsWellFormed(c) && c.privateKey == ""
    ensures KeyValues(SectionText'(c), true) ==
      [("PrivateKey", Line("Address", AddressValue(c)))] + OptionalFields(c)
  {
    var address := Line("Address", AddressValue(c));
    var optional, end := OptionalFields(c), SectionEnd(c);
    var rest := if optional == [] then end else "\n" + (FieldsText(optional) + end);
    var lead := "PrivateKey = \n";
    AddressIsValue(c);
    AddressLine(AddressValue(c));
    EmptyKeyText(c, rest);
    RestFields(c, rest);
    hide OptionalFields; hide AddressValue; hide MatchField; hide Line; hide FieldsText; hide SectionEnd;
    SkipLine("", lead + (address + rest), true);
    Assoc("", "\n", lead + (address + rest));
    Parts("", SectionText'(c));
    MatchEmptyKey(address, rest);
    Assoc(lead, address, rest);
    Parts(lead + address, rest);
  }

  lemma AddressLine(value: string)
    requires '\n' !in value
    ensures var line := Line("Address", value); line != "" && IsValue(line)
  {
  }

  // What follows the address line.
  lemma RestFields(c: WireGuardConfig, rest: string)
    requires FieldsWellFormed(c)
    requires rest == if OptionalFields(c) == [] then SectionEnd(c) else "\n" + (FieldsText(OptionalFields(c)) + SectionEnd(c))
    ensures rest == "" || rest[0] == '\n'
    ensures KeyValues(rest, false) == OptionalFields(c)
  {
    var optional, end := OptionalFields(c), SectionEnd(c);
    assert forall i | 0 <= i < |end| :: end[i] == '\n';
    OptionalFieldsGood(c);
    hide OptionalFields; hide FieldsText; hide MatchField;
    if optional == [] {
      BlankHasNone(end, false);
    } else {
      FieldsOfLines(optional, end);
      NextLine(FieldsText(optional) + end);
    }
  }

  lemma EmptyKeyText(c: WireGuardConfig, rest: string)
    requires c.privateKey == ""
    requires rest == if OptionalFields(c) == [] then SectionEnd(c) else "\n" + (FieldsText(OptionalFields(c)) + SectionEnd(c))
    ensures FieldsText(InterfaceFields(c)) + SectionEnd(c) ==
      "PrivateKey = \n" + (Line("Address", AddressValue(c)) + rest)
  {
    var fields, end := InterfaceFields(c), SectionEnd(c);
    var two := [("Address", AddressValue(c))] + OptionalFields(c);
    assert fields == [("PrivateKey", c.privateKey)] + two;
    assert Line("PrivateKey", "") == "PrivateKey = ";
    hide AddressValue; hide OptionalFields; hide InterfaceFields; hide SectionEnd; hide FieldsText; hide Line;
    Parts([("PrivateKey", c.privateKey)], two);
    Parts([("Address", AddressValue(c))], OptionalFields(c));
    FieldsTextStep(fields, end);
    FieldsTextStep(two, end);
    Assoc("PrivateKey = ", "\n", Line("Address", AddressValue(c)) + rest);
  }

  lemma MatchEmptyKey(address: string, rest: string)
    requires address != "" && IsValue(address)
    requires rest == "" || rest[0] == '\n'
    ensures MatchField("PrivateKey = \n" + (address + rest)) ==
      Some(Match("PrivateKey", address, |"PrivateKey = \n" + address|))
  {
    var s := "PrivateKey = \n" + (address + rest);
    assert s[..10] == "PrivateKey" && s[14..14 + |address|] == address;
    KeyNames();
    MatchAt(s, "PrivateKey", 2, address);
  }

  /**
   * The round trip, exactly: the daemon reads the normal form of what the backend printed if and only if the
   * configuration is well formed.
   */
  lemma RoundTripIff(c: WireGuardConfig)
    ensures ParseIni(IniText(c)) == Parsed(Normal(c)) <==> WellFormed(c)
  {
    if WellFormed(c) {
      RoundTrip(c);
    }
    if ParseIni(IniText(c)) == Parsed(Normal(c)) {
      OnlyWellFormedFields(c);
      if c.privateKey == "" {
        SectionOfText(c);
        EmptyKeyFields(c);
        var first := [("PrivateKey", Line("Address", AddressValue(c)))];
        assert first == [] + first;
        GetLast([], "PrivateKey", Line("Address", AddressValue(c)), "PrivateKey");
        SectionRoundTrip(c, SectionText'(c), first, Normal(c).peers);
      }
    }
  }
}
