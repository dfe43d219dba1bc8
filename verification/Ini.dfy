/** The wg-quick style configuration text: the backend prints it, the daemon parses it. */

module IniFormat {

  import opened Options

  datatype Peer = Peer(
    publicKey: string,
    allowedIps: seq<string>,
    endpoint: Option<string>,
    endpointPort: Option<int>,
    persistentKeepalive: Option<int>)

  // prefixLen stands for the prefix length of the backend's subnet, the only part of it that is printed.
  datatype WireGuardConfig = WireGuardConfig(
    privateKey: string,
    address: string,
    prefixLen: nat,
    listenPort: Option<int>,
    dnsServers: Option<seq<string>>,
    peers: seq<Peer>,
    mtu: Option<int>)

  datatype DesiredConfig = DesiredConfig(
    privateKey: string,
    address: string,
    subnet: string,
    listenPort: Option<int>,
    dnsServers: Option<seq<string>>,
    peers: seq<Peer>,
    mtu: Option<int>)

  datatype ParseResult = NoInterface | ValueError | Parsed(config: DesiredConfig)

  const INTERFACE := "[Interface]"
  const PEER := "[Peer]"
  const DEFAULT_PORT := 51820

  type Fields = seq<(string, string)>

  predicate Truthy(n: Option<int>) {
    n.Some? && n.value != 0
  }

  predicate HasText(s: Option<string>) {
    s.Some? && s.value != ""
  }

  predicate HasItems(items: Option<seq<string>>) {
    items.Some? && items.value != []
  }

  function PortOr51820(port: Option<int>): int {
    if Truthy(port) then port.value else DEFAULT_PORT
  }
}

module IniPrinter {

  import opened Options
  import opened Text
  import opened Decimal
  import opened IniFormat

  function Line(key: string, value: string): string {
    key + " = " + value
  }

  function Lines(fields: Fields): (lines: seq<string>)
    ensures |lines| == |fields|
  {
    if fields == [] then [] else [Line(fields[0].0, fields[0].1)] + Lines(fields[1..])
  }

  function InterfaceFields(c: WireGuardConfig): Fields {
    [("PrivateKey", c.privateKey), ("Address", c.address + "/" + NatText(c.prefixLen))] + OptionalFields(c)
  }

  function OptionalFields(c: WireGuardConfig): Fields {
    (if Truthy(c.listenPort) then [("ListenPort", IntText(c.listenPort.value))] else [])
    + (if HasItems(c.dnsServers) then [("DNS", Join(c.dnsServers.value, ", "))] else [])
    + (if Truthy(c.mtu) then [("MTU", IntText(c.mtu.value))] else [])
  }

  function PeerFields(p: Peer): Fields {
    [("PublicKey", p.publicKey)]
    + (if HasText(p.endpoint) then [("Endpoint", p.endpoint.value + ":" + IntText(PortOr51820(p.endpointPort)))] else [])
    + (if p.allowedIps != [] then [("AllowedIPs", Join(p.allowedIps, ", "))] else [])
    + (if p.persistentKeepalive.Some? then [("PersistentKeepalive", IntText(p.persistentKeepalive.value))] else [])
  }

  function SectionLines(header: string, fields: Fields): seq<string> {
    [header] + Lines(fields) + [""]
  }

  function PeerLines(peers: seq<Peer>): seq<string> {
    if peers == [] then [] else SectionLines(PEER, PeerFields(peers[0])) + PeerLines(peers[1..])
  }

  /** The printed configuration. */
  function IniText(c: WireGuardConfig): string {
    Join(SectionLines(INTERFACE, InterfaceFields(c)) + PeerLines(c.peers), "\n")
  }

  lemma {:induction false} LinesAppend(a: Fields, key: string, value: string)
    ensures Lines(a + [(key, value)]) == Lines(a) + [Line(key, value)]
  {
    var x := [(key, value)];
    if a == [] {
      assert a + x == x && x[1..] == [];
    } else {
      assert (a + x)[1..] == a[1..] + x;
      LinesAppend(a[1..], key, value);
    }
  }

  method ToIni(c: WireGuardConfig) returns (text: string)
    ensures text == IniText(c)
  {
    var lines := PrintInterface(c);
    ghost var all := lines + PeerLines(c.peers);
    assert c.peers[0..] == c.peers;
    for i := 0 to |c.peers|
      invariant lines + PeerLines(c.peers[i..]) == all
    {
      var section := PrintPeer(c.peers[i]);
      assert c.peers[i..][0] == c.peers[i] && c.peers[i..][1..] == c.peers[i + 1..];
      lines := lines + section;
    }
    assert c.peers[|c.peers|..] == [];
    assert lines + PeerLines([]) == lines;
    text := Join(lines, "\n");
  }

  method PrintInterface(c: WireGuardConfig) returns (lines: seq<string>)
    ensures lines == SectionLines(INTERFACE, InterfaceFields(c))
  {
    lines := [INTERFACE];
    ghost var fields: Fields := [];
    lines, fields := AddLine(lines, "PrivateKey", c.privateKey, fields);
    lines, fields := AddLine(lines, "Address", c.address + "/" + NatText(c.prefixLen), fields);
    ghost var first := fields;
    hide OptionalFields;
    assert InterfaceFields(c) == first + OptionalFields(c);
    lines, fields := PrintOptional(c, lines, fields);
    lines := lines + [""];
  }

  method PrintOptional(c: WireGuardConfig, before: seq<string>, ghost first: Fields)
    returns (lines: seq<string>, ghost fields: Fields)
    requires before != [] && before[1..] == Lines(first)
    ensures fields == first + OptionalFields(c)
    ensures |lines| > 0 && lines[0] == before[0] && lines[1..] == Lines(fields)
  {
    lines, fields := before, first;
    ghost var listen: Fields, dns: Fields, mtu: Fields := [], [], [];
    if Truthy(c.listenPort) {
      lines, fields := AddLine(lines, "ListenPort", IntText(c.listenPort.value), fields);
      listen := [("ListenPort", IntText(c.listenPort.value))];
    }
    if HasItems(c.dnsServers) {
      lines, fields := AddLine(lines, "DNS", Join(c.dnsServers.value, ", "), fields);
      dns := [("DNS", Join(c.dnsServers.value, ", "))];
    }
    if Truthy(c.mtu) {
      lines, fields := AddLine(lines, "MTU", IntText(c.mtu.value), fields);
      mtu := [("MTU", IntText(c.mtu.value))];
    }
    assert OptionalFields(c) == listen + dns + mtu;
    hide OptionalFields; hide Lines; hide Join; hide IntText;
    assert fields == first + (listen + dns + mtu);
  }

  method PrintPeer(p: Peer) returns (lines: seq<string>)
    ensures lines == SectionLines(PEER, PeerFields(p))
  {
    ghost var fields: Fields := [];
    lines := [PEER];
    lines, fields := AddLine(lines, "PublicKey", p.publicKey, fields);
    if HasText(p.endpoint) {
      var port := PortOr51820(p.endpointPort);
      lines, fields := AddLine(lines, "Endpoint", p.endpoint.value + ":" + IntText(port), fields);
    }
    if p.allowedIps != [] {
      lines, fields := AddLine(lines, "AllowedIPs", Join(p.allowedIps, ", "), fields);
    }
    if p.persistentKeepalive.Some? {
      lines, fields := AddLine(lines, "PersistentKeepalive", IntText(p.persistentKeepalive.value), fields);
    }
    assert fields == PeerFields(p);
    lines := lines + [""];
  }

  // lines.append(f"{key} = {value}")
  method AddLine(before: seq<string>, key: string, value: string, ghost fields: Fields)
    returns (lines: seq<string>, ghost extended: Fields)
    requires before != [] && before[1..] == Lines(fields)
    ensures lines == before + [Line(key, value)]
    ensures extended == fields + [(key, value)] && lines[1..] == Lines(extended)
  {
    LinesAppend(fields, key, value);
    lines, extended := before + [Line(key, value)], fields + [(key, value)];
    assert lines[1..] == before[1..] + [Line(key, value)];
  }
}

module IniParser {

  import opened Options
  import opened Text
  import opened Decimal
  import opened IniFormat

  /** The first position at which pat begins. */
  function Find(s: string, pat: string): Option<nat>
    ensures var r := Find(s, pat); r.Some? ==> r.value <= |s| && pat <= s[r.value..]
  {
    if pat <= s then Some(0)
    else if s == [] then None
    else
      match Find(s[1..], pat)
      case None => None
      case Some(n) => Some(n + 1)
  }

  /** How much .*?(?=stop|$) matches with DOTALL: $ holds at the end and before a final newline. */
  function LazyEnd(s: string, stop: string): (n: nat)
    ensures n <= |s|
  {
    if stop <= s || s == [] || s == "\n" then 0 else 1 + LazyEnd(s[1..], stop)
  }

  /** The group of \[Interface\](.*?)(?=\[Peer\]|$), first match. */
  function InterfaceSection(ini: string): Option<string> {
    match Find(ini, INTERFACE)
    case None => None
    case Some(i) =>
      var body := ini[i + |INTERFACE|..];
      Some(body[..LazyEnd(body, PEER)])
  }

  /** All matches of \[Peer\].*?(?=\[|$) */
  function PeerBlocks(s: string): seq<string>
    decreases |s|
  {
    if s == [] then []
    else if PEER <= s then
      var e := |PEER| + LazyEnd(s[|PEER|..], "[");
      [s[..e]] + PeerBlocks(s[e..])
    else PeerBlocks(s[1..])
  }

  datatype Match = Match(key: string, value: string, len: nat)

  // Where the run of word characters, of spaces, or of the current line that begins at i ends.
  function WordEnd(s: string, i: nat): (j: nat)
    requires i <= |s|
    ensures i <= j <= |s|
    decreases |s| - i
  {
    if i < |s| && IsWord(s[i]) then WordEnd(s, i + 1) else i
  }

  function SpaceEnd(s: string, i: nat): (j: nat)
    requires i <= |s|
    ensures i <= j <= |s| && (j < |s| ==> !IsSpace(s[j]))
    decreases |s| - i
  {
    if i < |s| && IsSpace(s[i]) then SpaceEnd(s, i + 1) else i
  }

  function LineEnd(s: string, i: nat): (j: nat)
    requires i <= |s|
    ensures i <= j <= |s| && '\n' !in s[i..j]
    decreases |s| - i
  {
    if i < |s| && s[i] != '\n' then LineEnd(s, i + 1) else i
  }

  /**
   * (\w+)\s*=\s*(.*)$ at the start of s, with MULTILINE. The three runs are maximal, since what must follow each
   * of them is outside its class; the second \s* may run over newlines.
   */
  function MatchField(s: string): (m: Option<Match>)
    ensures m.Some? ==> 0 < m.value.len <= |s|
  {
    var k := WordEnd(s, 0);
    var e := SpaceEnd(s, k);
    if k == 0 || e == |s| || s[e] != '=' then None
    else
      var v := SpaceEnd(s, e + 1);
      var end := LineEnd(s, v);
      Some(Match(s[..k], s[v..end], end))
  }

  /** All matches of ^(\w+)\s*=\s*(.*)$ in s; atLineStart tells whether ^ holds at its first character. */
  function KeyValues(s: string, atLineStart: bool): Fields
    decreases |s|
  {
    if s == [] then []
    else
      var m := MatchField(s);
      if atLineStart && m.Some? then
        [(m.value.key, m.value.value)] + KeyValues(s[m.value.len..], false)
      else
        KeyValues(s[1..], s[0] == '\n')
  }

  /** dict(fields).get(key, ""): the last occurrence of a key wins. */
  function Get(fields: Fields, key: string): string {
    if fields == [] then ""
    else
      var (k, v) := fields[|fields| - 1];
      if k == key then v else Get(fields[..|fields| - 1], key)
  }

  function LastIndexOf(s: string, c: char): (n: nat)
    requires c in s
    ensures n < |s| && s[n] == c && c !in s[n + 1..]
  {
    if s[|s| - 1] == c then |s| - 1 else LastIndexOf(s[..|s| - 1], c)
  }

  function ParseEndpoint(raw: string): (Option<string>, Option<int>) {
    if raw == "" then (None, None)
    else if ':' in raw then
      var n := LastIndexOf(raw, ':');
      var port := IntValue(raw[n + 1..]);
      (Some(raw[..n]), Some(if port.Some? then port.value else DEFAULT_PORT))
    else (Some(raw), None)
  }

  // int(raw) if raw else None; the outer None stands for ValueError.
  function OptionalInt(raw: string): Option<Option<int>> {
    if raw == "" then Some(None)
    else
      match IntValue(raw)
      case None => None
      case Some(n) => Some(Some(n))
  }

  datatype BlockResult = Skipped | BadNumber | Found(peer: Peer)

  function ParseBlock(block: string): BlockResult {
    var kv := KeyValues(block, true);
    var publicKey := Get(kv, "PublicKey");
    if publicKey == "" then Skipped
    else
      var (endpoint, port) := ParseEndpoint(Get(kv, "Endpoint"));
      match OptionalInt(Get(kv, "PersistentKeepalive"))
      case None => BadNumber
      case Some(keepalive) => Found(Peer(publicKey, Items(Get(kv, "AllowedIPs")), endpoint, port, keepalive))
  }

  /** The peers of the blocks; None stands for ValueError. */
  function ParseBlocks(blocks: seq<string>): Option<seq<Peer>> {
    if blocks == [] then Some([])
    else
      match (ParseBlock(blocks[0]), ParseBlocks(blocks[1..]))
      case (BadNumber, _) => None
      case (_, None) => None
      case (Skipped, Some(peers)) => Some(peers)
      case (Found(p), Some(peers)) => Some([p] + peers)
  }

  function ParseSections(section: string, peers: seq<Peer>): ParseResult {
    var kv := KeyValues(section, true);
    var addressRaw := Get(kv, "Address");
    var dnsRaw := Get(kv, "DNS");
    var listenPort := OptionalInt(Get(kv, "ListenPort"));
    var mtu := OptionalInt(Get(kv, "MTU"));
    if listenPort.None? || mtu.None? then ValueError
    else
      Parsed(DesiredConfig(
        Get(kv, "PrivateKey"),
        Split(addressRaw, '/')[0],
        if |Split(addressRaw, '/')| > 1 then "0.0.0.0/" + Split(addressRaw, '/')[1] else "",
        listenPort.value,
        if dnsRaw == "" then None else Some(Items(dnsRaw)),
        peers,
        mtu.value))
  }

  /** What the daemon reads from a configuration text. */
  function ParseIni(ini: string): ParseResult {
    match InterfaceSection(ini)
    case None => NoInterface
    case Some(section) =>
      match ParseBlocks(PeerBlocks(ini))
      case None => ValueError
      case Some(peers) => ParseSections(section, peers)
  }

  method ParsePeer(block: string) returns (r: BlockResult)
    ensures r == ParseBlock(block)
  {
    var pkv := KeyValues(block, true);
    var publicKey := Get(pkv, "PublicKey");
    if publicKey == "" {
      return Skipped;
    }
    var endpointRaw := Get(pkv, "Endpoint");
    var endpoint: Option<string>, endpointPort: Option<int> := None, None;
    if endpointRaw != "" {
      if ':' in endpointRaw {
        var n := LastIndexOf(endpointRaw, ':');
        endpoint := Some(endpointRaw[..n]);
        endpointPort := IntValue(endpointRaw[n + 1..]);
        if endpointPort.None? {
          endpointPort := Some(DEFAULT_PORT);
        }
      } else {
        endpoint := Some(endpointRaw);
      }
    }
    var keepalive := OptionalInt(Get(pkv, "PersistentKeepalive"));
    if keepalive.None? {
      return BadNumber;
    }
    r := Found(Peer(publicKey, Items(Get(pkv, "AllowedIPs")), endpoint, endpointPort, keepalive.value));
  }

  // The peers read so far, then those still to read.
  function Prefixed(peers: seq<Peer>, more: Option<seq<Peer>>): Option<seq<Peer>> {
    if more.None? then None else Some(peers + more.value)
  }

  // Reading one block more.
  lemma ReadStep(peers: seq<Peer>, blocks: seq<string>, i: nat)
    requires i < |blocks|
    ensures Prefixed(peers, ParseBlocks(blocks[i..])) ==
      match ParseBlock(blocks[i])
      case BadNumber => None
      case Skipped => Prefixed(peers, ParseBlocks(blocks[i + 1..]))
      case Found(p) => Prefixed(peers + [p], ParseBlocks(blocks[i + 1..]))
  {
    hide ParseBlock;
    assert blocks[i..][0] == blocks[i] && blocks[i..][1..] == blocks[i + 1..];
    var block, more := ParseBlock(blocks[i]), ParseBlocks(blocks[i + 1..]);
    if block.Found? && more.Some? {
      assert peers + ([block.peer] + more.value) == peers + [block.peer] + more.value;
    }
  }

  method ParsePeers(blocks: seq<string>) returns (r: Option<seq<Peer>>)
    ensures r == ParseBlocks(blocks)
  {
    var peers: seq<Peer> := [];
    ghost var all := ParseBlocks(blocks);
    assert blocks[0..] == blocks && (all.Some? ==> [] + all.value == all.value);
    assert Prefixed([], all) == all;
    hide ParseBlock; hide Prefixed;
    for i := 0 to |blocks|
      invariant Prefixed(peers, ParseBlocks(blocks[i..])) == all
    {
      ReadStep(peers, blocks, i);
      var block := ParsePeer(blocks[i]);
      if block == BadNumber {
        return None;
      }
      if block.Found? {
        peers := peers + [block.peer];
      }
    }
    AllRead(peers, blocks);
    r := Some(peers);
  }

  lemma AllRead(peers: seq<Peer>, blocks: seq<string>)
    ensures Prefixed(peers, ParseBlocks(blocks[|blocks|..])) == Some(peers)
  {
    assert blocks[|blocks|..] == [] && peers + [] == peers;
  }

  method ParseConfigIni(ini: string) returns (r: ParseResult)
    ensures r == ParseIni(ini)
  {
    var section := InterfaceSection(ini);
    if section.None? {
      return NoInterface;
    }
    var peers := ParsePeers(PeerBlocks(ini));
    if peers.None? {
      return ValueError;
    }
    r := ParseSections(section.value, peers.value);
  }
}
