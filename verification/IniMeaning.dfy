/** The configuration text in literal terms: what is printed, what is read back, and what the daemon sets. */
module IniMeaning {

  import opened Options
  import opened Seqs
  import opened Text
  import opened Decimal
  import opened IniFormat
  import opened IniPrinter
  import opened IniParser
  import IniRoundTrip
  import WgRuntime

  // ----- Printing

  // A line after the first.
  function Entry(key: string, value: string): string {
    "\n" + key + " = " + value
  }

  /** The lines of a peer after its header. */
  lemma PrintedPeer(p: Peer)
    ensures IniRoundTrip.FieldsText(PeerFields(p)) ==
      "PublicKey" + " = " + p.publicKey
      + (if p.endpoint.Some? && p.endpoint.value != "" then
           Entry("Endpoint", p.endpoint.value + ":"
             + IntText(if p.endpointPort.Some? && p.endpointPort.value != 0 then p.endpointPort.value else 51820))
         else "")
      + (if p.allowedIps != [] then Entry("AllowedIPs", Join(p.allowedIps, ", ")) else "")
      + (if p.persistentKeepalive.Some? then Entry("PersistentKeepalive", IntText(p.persistentKeepalive.value)) else "")
  {
    hide IntText; hide Join; hide IniRoundTrip.FieldsText; hide Entry;
    OneField("PublicKey", p.publicKey);
    var f0 := [("PublicKey", p.publicKey)];
    var address := if HasText(p.endpoint) then p.endpoint.value + ":" + IntText(PortOr51820(p.endpointPort)) else "";
    var f1 := MaybeMore(f0, HasText(p.endpoint), "Endpoint", address);
    var f2 := MaybeMore(f1, p.allowedIps != [], "AllowedIPs", Join(p.allowedIps, ", "));
    var alive := if p.persistentKeepalive.Some? then IntText(p.persistentKeepalive.value) else "";
    var f3 := MaybeMore(f2, p.persistentKeepalive.Some?, "PersistentKeepalive", alive);
    assert PeerFields(p) == f3;
  }

  /** The lines of the interface section after its header. */
  lemma PrintedInterface(c: WireGuardConfig)
    ensures IniRoundTrip.FieldsText(InterfaceFields(c)) ==
      "PrivateKey" + " = " + c.privateKey + Entry("Address", c.address + "/" + NatText(c.prefixLen))
      + (if c.listenPort.Some? && c.listenPort.value != 0 then Entry("ListenPort", IntText(c.listenPort.value)) else "")
      + (if c.dnsServers.Some? && c.dnsServers.value != [] then Entry("DNS", Join(c.dnsServers.value, ", ")) else "")
      + (if c.mtu.Some? && c.mtu.value != 0 then Entry("MTU", IntText(c.mtu.value)) else "")
  {
    hide IntText; hide NatText; hide Join; hide IniRoundTrip.FieldsText; hide Entry;
    OneField("PrivateKey", c.privateKey);
    var f0 := [("PrivateKey", c.privateKey)];
    var f1 := MaybeMore(f0, true, "Address", c.address + "/" + NatText(c.prefixLen));
    var listen := if Truthy(c.listenPort) then IntText(c.listenPort.value) else "";
    var f2 := MaybeMore(f1, Truthy(c.listenPort), "ListenPort", listen);
    var dns := if HasItems(c.dnsServers) then Join(c.dnsServers.value, ", ") else "";
    var f3 := MaybeMore(f2, HasItems(c.dnsServers), "DNS", dns);
    var mtu := if Truthy(c.mtu) then IntText(c.mtu.value) else "";
    var f4 := MaybeMore(f3, Truthy(c.mtu), "MTU", mtu);
    assert InterfaceFields(c) == f4;
  }

  lemma OneField(key: string, value: string)
    ensures IniRoundTrip.FieldsText([(key, value)]) == key + " = " + value
  {
    var one := [(key, value)];
    assert one[1..] == [];
  }

  // One field more is one line more.
  lemma MaybeMore(fields: Fields, more: bool, key: string, value: string) returns (all: Fields)
    requires fields != []
    ensures all == fields + if more then [(key, value)] else []
    ensures IniRoundTrip.FieldsText(all) == IniRoundTrip.FieldsText(fields) + if more then Entry(key, value) else ""
  {
    all := fields;
    if more {
      all := fields + [(key, value)];
      LinesAppend(fields, key, value);
      JoinAppend(Lines(fields), [Line(key, value)], "\n");
      assert Lines(fields) != [];
      var text, line := IniRoundTrip.FieldsText(fields), Line(key, value);
      assert text + "\n" + line == text + Entry(key, value);
    } else {
      Parts(IniRoundTrip.FieldsText(fields), "");
      assert fields + [] == fields;
    }
  }

  /** The whole text: the interface, then each peer, each section ended by an empty line. */
  lemma {:induction false} PrintedText(c: WireGuardConfig)
    ensures c.peers == [] ==>
      IniText(c) == "[Interface]\n" + IniRoundTrip.FieldsText(InterfaceFields(c)) + "\n"
    ensures c.peers != [] ==>
      var last := c.peers[|c.peers| - 1];
      IniText(c) == IniText(c.(peers := c.peers[..|c.peers| - 1]))
        + "\n[Peer]\n" + IniRoundTrip.FieldsText(PeerFields(last)) + "\n"
  {
    hide IniRoundTrip.FieldsText; hide InterfaceFields; hide PeerFields;
    IniRoundTrip.TextShape(c);
    if c.peers != [] {
      var init, last := c.peers[..|c.peers| - 1], c.peers[|c.peers| - 1];
      IniRoundTrip.TextShape(c.(peers := init));
      SameInterface(c, init);
      assert c.peers == init + [last];
      PeersTextAppend(init, last);
      hide IniRoundTrip.PeersText; hide IniText;
    }
  }

  lemma SameInterface(c: WireGuardConfig, peers: seq<Peer>)
    ensures InterfaceFields(c.(peers := peers)) == InterfaceFields(c)
  {
  }

  lemma {:induction false} PeersTextAppend(peers: seq<Peer>, p: Peer)
    ensures IniRoundTrip.PeersText(peers + [p]) ==
      IniRoundTrip.PeersText(peers) + "\n[Peer]\n" + IniRoundTrip.FieldsText(PeerFields(p)) + "\n"
  {
    var all := peers + [p];
    if peers == [] {
      OnePeerText(p);
      assert all == [p];
    } else {
      hide IniRoundTrip.FieldsText; hide PeerFields; hide IniRoundTrip.BlockText;
      PeersTextAppend(peers[1..], p);
      assert all[1..] == peers[1..] + [p];
      var first, rest := "\n" + IniRoundTrip.BlockText(peers[0]) + "\n", IniRoundTrip.PeersText(peers[1..]);
      Regroup(first, rest, "\n[Peer]\n", IniRoundTrip.FieldsText(PeerFields(p)), "\n");
    }
  }

  lemma OnePeerText(p: Peer)
    ensures IniRoundTrip.PeersText([p]) == "\n[Peer]\n" + IniRoundTrip.FieldsText(PeerFields(p)) + "\n"
    ensures IniRoundTrip.PeersText([]) == ""
  {
    hide IniRoundTrip.FieldsText; hide PeerFields;
    assert [p][1..] == [];
  }

  lemma Regroup(a: string, b: string, c: string, d: string, e: string)
    ensures a + (b + c + d + e) == a + b + c + d + e
  {
  }

  // ----- Numbers

  /** Decimal text, digit by digit. */
  lemma DecimalDigits(n: nat, d: nat)
    requires d < 10
    ensures NatText(d) == ["0123456789"[d]]
    ensures n > 0 ==> NatText(10 * n + d) == NatText(n) + ["0123456789"[d]]
    ensures IntText(n) == NatText(n) && (n > 0 ==> IntText(0 - n) == "-" + NatText(n))
  {
    DigitIs(d);
    if n > 0 {
      assert (10 * n + d) / 10 == n && (10 * n + d) % 10 == d;
    }
  }

  lemma DigitIs(d: nat)
    requires d < 10
    ensures DigitOf(d) == "0123456789"[d] && IsDigit(DigitOf(d)) && DigitValue(DigitOf(d)) == d
  {
  }

  /** Digits, with single underscores between digits, are what a number is read from. */
  lemma {:induction false} DigitsAccepted(s: string)
    ensures DigitsValue(s).Some? <==> s != "" && forall i | 0 <= i < |s| :: GoodAt(s, i)
    decreases |s|
  {
    hide GoodAt;
    DigitsStep(s);
    if s != "" && !IsDigit(s[|s| - 1]) {
      LastIsDigit(s);
    } else if |s| > 1 {
      var high := Higher(s);
      DigitsAccepted(high);
      AcceptedStep(s, high);
    } else if |s| == 1 {
      OneGood(s);
    }
    hide DigitsValue;
  }

  // What is left of the text before its last digit and an underscore.
  function Higher(s: string): string
    requires |s| > 1
  {
    if s[|s| - 2] == '_' then s[..|s| - 2] else s[..|s| - 1]
  }

  lemma DigitsStep(s: string)
    ensures s == "" || !('0' <= s[|s| - 1] <= '9') ==> DigitsValue(s) == None
    ensures |s| == 1 && '0' <= s[0] <= '9' ==> DigitsValue(s).Some?
    ensures |s| > 1 && '0' <= s[|s| - 1] <= '9' ==> (DigitsValue(s).Some? <==> DigitsValue(Higher(s)).Some?)
  {
  }

  lemma LastIsDigit(s: string)
    requires s != "" && !('0' <= s[|s| - 1] <= '9')
    ensures !GoodAt(s, |s| - 1)
  {
  }

  lemma OneGood(s: string)
    requires |s| == 1
    ensures (forall i | 0 <= i < |s| :: GoodAt(s, i)) <==> '0' <= s[0] <= '9'
  {
    assert GoodAt(s, 0) <==> '0' <= s[0] <= '9';
  }

  // Whether position i is a digit or an underscore between digits.
  predicate GoodAt(s: string, i: nat)
    requires i < |s|
  {
    || '0' <= s[i] <= '9'
    || (s[i] == '_' && 0 < i < |s| - 1 && '0' <= s[i - 1] <= '9' && '0' <= s[i + 1] <= '9')
  }

  lemma AcceptedStep(s: string, high: string)
    requires |s| > 1 && '0' <= s[|s| - 1] <= '9' && high == Higher(s)
    ensures (forall i | 0 <= i < |s| :: GoodAt(s, i)) <==> high != "" && (forall i | 0 <= i < |high| :: GoodAt(high, i))
  {
    var n := |high|;
    assert forall i | 0 <= i < n :: high[i] == s[i];
    if forall i | 0 <= i < |s| :: GoodAt(s, i) {
      assert GoodAt(s, n);
      assert n > 0 ==> GoodAt(s, n - 1);
      forall i | 0 <= i < n ensures GoodAt(high, i) {
        assert GoodAt(s, i);
      }
    }
    if n > 0 && forall i | 0 <= i < n :: GoodAt(high, i) {
      assert GoodAt(high, n - 1);
      forall i | 0 <= i < |s| ensures GoodAt(s, i) {
        if i < n { assert GoodAt(high, i); }
      }
    }
  }

  /** One digit more, after an underscore or not, is ten times the value and the digit. */
  lemma OneDigitMore(s: string, d: nat)
    requires DigitsValue(s).Some? && d < 10
    ensures DigitsValue(["0123456789"[d]]) == Some(d)
    ensures DigitsValue(s + ["0123456789"[d]]) == Some(10 * DigitsValue(s).value + d)
    ensures DigitsValue(s + "_" + ["0123456789"[d]]) == Some(10 * DigitsValue(s).value + d)
  {
    DigitIs(d);
    var c := DigitOf(d);
    DigitsStep(s);
    LastDigit(s, s + [c], c, d);
    LastDigit(s, s + "_" + [c], c, d);
  }

  lemma LastDigit(s: string, t: string, c: char, d: nat)
    requires DigitsValue(s).Some? && IsDigit(c) && DigitValue(c) == d && s != "" && '0' <= s[|s| - 1] <= '9'
    requires t == s + [c] || t == s + "_" + [c]
    ensures DigitsValue(t) == Some(10 * DigitsValue(s).value + d)
  {
    hide DigitsValue;
    HigherIs(s, t, c);
    Unfold(t);
  }

  lemma HigherIs(s: string, t: string, c: char)
    requires s != "" && s[|s| - 1] != '_' && (t == s + [c] || t == s + "_" + [c])
    ensures |t| > 1 && t[|t| - 1] == c && Higher(t) == s
  {
    if t == s + [c] {
      assert t[..|t| - 1] == s;
    } else {
      assert t[..|t| - 2] == s;
    }
  }

  lemma Unfold(t: string)
    requires |t| > 1 && IsDigit(t[|t| - 1])
    ensures DigitsValue(t) ==
      match DigitsValue(Higher(t))
      case None => None
      case Some(v) => Some(10 * v + DigitValue(t[|t| - 1]))
  {
  }

  /** A number may have one sign and white space around it. */
  lemma SignsAndSpaces(s: string)
    requires DigitsValue(s).Some?
    ensures IntValue(s) == Some(DigitsValue(s).value)
    ensures IntValue("+" + s) == IntValue(" " + s) == IntValue(s + "\n") == IntValue(s)
    ensures IntValue("-" + s) == Some(0 - DigitsValue(s).value) && IntValue("+-" + s) == None && IntValue("") == None
  {
    hide DigitsValue; hide Strip;
    Ends(s);
    Plain(s, "", "");
    assert "" + s + "" == s;
    Plain(s, " ", "");
    Plain(s, "", "\n");
    Signed("+", s);
    Signed("-", s);
    TwoSigns(s);
    NoText();
  }

  lemma NoText()
    ensures IntValue("") == None
  {
    assert Strip("") == "";
  }

  lemma Ends(s: string)
    requires DigitsValue(s).Some?
    ensures s != "" && '0' <= s[0] <= '9' && '0' <= s[|s| - 1] <= '9'
  {
    DigitsAccepted(s);
    assert GoodAt(s, 0) && GoodAt(s, |s| - 1);
  }

  lemma Plain(s: string, before: string, after: string)
    requires DigitsValue(s).Some? && (before == "" || before == " ") && (after == "" || after == "\n")
    ensures IntValue(before + s + after) == Some(DigitsValue(s).value)
    ensures before + s + "" == before + s && "" + s + after == s + after
  {
    hide Strip; hide DigitsValue;
    Ends(s);
    Trimmed(s, before, after);
  }

  lemma Signed(sign: string, s: string)
    requires DigitsValue(s).Some? && (sign == "+" || sign == "-")
    ensures IntValue(sign + s) == Some(if sign == "-" then 0 - DigitsValue(s).value else DigitsValue(s).value)
  {
    hide Strip; hide DigitsValue;
    Ends(s);
    Trimmed(sign + s, "", "");
    assert (sign + s)[1..] == s && "" + (sign + s) + "" == sign + s;
  }

  lemma TwoSigns(s: string)
    requires DigitsValue(s).Some?
    ensures IntValue("+-" + s) == None
  {
    hide Strip; hide DigitsValue;
    Ends(s);
    var t := "+-" + s;
    Trimmed(t, "", "");
    assert t[1..] == "-" + s && "" + t + "" == t;
    DigitsAccepted("-" + s);
    assert !GoodAt("-" + s, 0);
  }

  lemma Trimmed(s: string, before: string, after: string)
    requires s != "" && !IsSpace(s[0]) && !IsSpace(s[|s| - 1])
    requires before == "" || before == " "
    requires after == "" || after == "\n"
    ensures Strip(before + s + after) == s
  {
    var t := s + after;
    assert before + s + after == before + t && t[0] == s[0];
    LeftTrimmed(before, t);
    RightTrimmed(s, after);
    hide StripLeft; hide StripRight;
  }

  lemma LeftTrimmed(before: string, t: string)
    requires t != "" && !IsSpace(t[0]) && (before == "" || before == " ")
    ensures StripLeft(before + t) == t
  {
    if before == " " {
      assert (before + t)[1..] == t;
      assert Span(t, IsSpace) == 0;
      assert Span(before + t, IsSpace) == 1;
    } else {
      assert before + t == t;
    }
  }

  lemma RightTrimmed(s: string, after: string)
    requires s != "" && !IsSpace(s[|s| - 1]) && (after == "" || after == "\n")
    ensures StripRight(s + after) == s
  {
    assert StripRight(s) == s;
    if after == "\n" {
      assert (s + after)[..|s + after| - 1] == s;
    } else {
      assert s + after == s;
    }
  }

  // ----- Reading

  /** What is read back from the text of a well-formed configuration, field by field. */
  lemma ReadBack(c: WireGuardConfig)
    requires IniRoundTrip.WellFormed(c)
    ensures ParseIni(IniText(c)).Parsed?
    ensures var d := ParseIni(IniText(c)).config;
      && d.privateKey == c.privateKey && d.address == c.address && d.subnet == "0.0.0.0/" + NatText(c.prefixLen)
      && d.listenPort == (if c.listenPort == Some(0) then None else c.listenPort)
      && d.mtu == (if c.mtu == Some(0) then None else c.mtu)
      && d.dnsServers == (if c.dnsServers == Some([]) then None else c.dnsServers)
      && |d.peers| == |c.peers|
      && forall k | 0 <= k < |c.peers| :: SamePeer(c.peers[k], d.peers[k])
  {
    IniRoundTrip.RoundTripIff(c);
    hide ParseIni; hide IniText; hide NatText; hide IniRoundTrip.WellFormed;
  }

  /** A peer as it is read back: a given endpoint has the given port, or 51820 when that is missing or 0. */
  predicate SamePeer(p: Peer, q: Peer) {
    && q.publicKey == p.publicKey && q.allowedIps == p.allowedIps && q.persistentKeepalive == p.persistentKeepalive
    && if p.endpoint.Some? && p.endpoint.value != "" then
         && q.endpoint == p.endpoint
         && match p.endpointPort
            case None => q.endpointPort == Some(51820)
            case Some(n) => q.endpointPort == Some(if n != 0 then n else 51820)
       else q.endpoint == None && q.endpointPort == None
  }

  /** The port is what follows the last colon, or 51820 when that is no number; without a colon there is no port. */
  lemma EndpointSplit(host: string, port: string)
    requires ':' !in port
    ensures ParseEndpoint(host + ":" + port) == (Some(host), Some(if IntValue(port).Some? then IntValue(port).value else 51820))
    ensures port != "" ==> ParseEndpoint(port) == (Some(port), None)
  {
    hide IntValue;
    var raw := host + ":" + port;
    assert raw[|host|] == ':' && raw[|host| + 1..] == port && raw[..|host|] == host;
    OnlyLast(raw, ':', |host|);
  }

  lemma OnlyLast(s: string, c: char, k: nat)
    requires k < |s| && s[k] == c && c !in s[k + 1..]
    ensures c in s && LastIndexOf(s, c) == k
  {
    assert forall j | k < j < |s| :: s[j] == s[k + 1..][j - k - 1];
    var n := LastIndexOf(s, c);
    assert forall j | n < j < |s| :: s[j] == s[n + 1..][j - n - 1];
  }

  /** A block without a public key is skipped; a keepalive that is no number is an exception. */
  lemma BlockOutcome(block: string)
    ensures var fields := KeyValues(block, true);
      var key, alive := Get(fields, "PublicKey"), Get(fields, "PersistentKeepalive");
      && (ParseBlock(block) == Skipped <==> key == "")
      && (ParseBlock(block) == BadNumber <==> key != "" && alive != "" && IntValue(alive) == None)
      && (ParseBlock(block).Found? ==>
            var p := ParseBlock(block).peer;
            && p.publicKey == key && p.allowedIps == Items(Get(fields, "AllowedIPs"))
            && p.persistentKeepalive == (if alive == "" then None else IntValue(alive))
            && (Get(fields, "Endpoint") == "" <==> p.endpoint == None))
  {
    hide IntValue; hide Items; hide KeyValues; hide Get;
  }

  /** What an interface section gives: the address up to its first slash, the length up to the second, and the numbers. */
  lemma SectionOutcome(section: string, peers: seq<Peer>, ip: string, rest: string)
    requires '/' !in ip && Get(KeyValues(section, true), "Address") == ip + rest && (rest == "" || rest[0] == '/')
    ensures var fields, r := KeyValues(section, true), ParseSections(section, peers);
      var port, mtu, dns := Get(fields, "ListenPort"), Get(fields, "MTU"), Get(fields, "DNS");
      && (r == ValueError <==> (port != "" && IntValue(port) == None) || (mtu != "" && IntValue(mtu) == None))
      && (r != ValueError ==>
            && r.Parsed? && r.config.privateKey == Get(fields, "PrivateKey") && r.config.peers == peers
            && r.config.listenPort == (if port == "" then None else IntValue(port))
            && r.config.mtu == (if mtu == "" then None else IntValue(mtu))
            && r.config.dnsServers == (if dns == "" then None else Some(Items(dns)))
            && r.config.address == ip
            && r.config.subnet == if rest == "" then "" else "0.0.0.0/" + Split(rest[1..], '/')[0])
  {
    SlashSplit(ip, rest);
    hide KeyValues; hide Get; hide IntValue; hide Items; hide Split;
  }

  lemma SlashSplit(ip: string, rest: string)
    requires '/' !in ip && (rest == "" || rest[0] == '/')
    ensures var parts := Split(ip + rest, '/');
      && parts[0] == ip && (|parts| > 1 <==> rest != "")
      && (rest != "" ==> parts[1] == Split(rest[1..], '/')[0])
  {
    if rest == "" {
      assert ip + rest == ip;
      NoSlash(ip);
    } else {
      assert ip + rest == ip + ['/'] + rest[1..];
      SplitFirst(ip, rest[1..], '/');
    }
  }

  lemma NoSlash(s: string)
    requires '/' !in s
    ensures Split(s, '/') == [s]
  {
    FirstIs(s, '/');
    assert forall i | 0 <= i < |s| :: s[i] in s && s[i] != '/';
  }

  /** Reading fails exactly without an interface header, or with a number that is none. */
  lemma NoInterfaceIff(ini: string)
    ensures ParseIni(ini) == NoInterface <==> forall i | 0 <= i <= |ini| :: !("[Interface]" <= ini[i..])
  {
    FoundIff(ini, INTERFACE);
    hide ParseBlocks; hide PeerBlocks; hide LazyEnd; hide KeyValues; hide OptionalInt; hide Split; hide Items; hide Get;
  }

  lemma {:induction false} FoundIff(s: string, pat: string)
    ensures Find(s, pat).None? <==> forall i | 0 <= i <= |s| :: !(pat <= s[i..])
    ensures Find(s, pat).Some? ==> forall i | 0 <= i < Find(s, pat).value :: !(pat <= s[i..])
  {
    assert s[0..] == s;
    if s != [] && !(pat <= s) {
      FoundIff(s[1..], pat);
      assert forall i | 0 < i <= |s| :: s[i..] == s[1..][i - 1..];
    }
  }

  // Where a section may end: before the next header, at the end, or before a newline that ends the text.
  predicate EndsAt(s: string, stop: string, i: nat)
    requires i <= |s|
  {
    stop <= s[i..] || i == |s| || (i == |s| - 1 && s[i] == '\n')
  }

  lemma EndsLater(s: string, stop: string, i: nat)
    requires s != "" && 0 < i <= |s|
    ensures EndsAt(s, stop, i) <==> EndsAt(s[1..], stop, i - 1)
  {
    assert s[1..][i - 1..] == s[i..];
  }

  /** A section ends at the first such place. */
  lemma {:induction false} SectionEnds(s: string, stop: string)
    ensures var n := LazyEnd(s, stop); EndsAt(s, stop, n) && forall i | 0 <= i < n :: !EndsAt(s, stop, i)
  {
    var n := LazyEnd(s, stop);
    assert s[0..] == s;
    if n > 0 {
      SectionEnds(s[1..], stop);
      forall i | 0 < i <= n ensures EndsAt(s, stop, i) <==> EndsAt(s[1..], stop, i - 1) {
        EndsLater(s, stop, i);
      }
      hide EndsAt;
      assert !EndsAt(s, stop, 0) by { NotHere(s, stop); }
    }
  }

  lemma NotHere(s: string, stop: string)
    requires LazyEnd(s, stop) > 0
    ensures !EndsAt(s, stop, 0)
  {
    assert s[0..] == s;
  }

  /** The last value of a key counts. */
  lemma LastWins(fields: Fields, key: string, value: string, other: string)
    ensures Get(fields + [(key, value)], key) == value && Get([], key) == ""
    ensures other != key ==> Get(fields + [(key, value)], other) == Get(fields, other)
  {
    IniRoundTrip.GetLast(fields, key, value, key);
    IniRoundTrip.GetLast(fields, key, value, other);
  }

  /** A field begins only at the start of a line. */
  lemma {:induction false} NoFieldInside(s: string)
    requires '\n' !in s
    ensures KeyValues(s, false) == []
  {
    if s != "" {
      NoFieldInside(s[1..]);
    }
  }

  // ----- Applying

  /**
   * After applying peers with distinct keys, each has its allowed addresses and keepalive, and its endpoint is text, ":"
   * and the port, 51820 when that is missing or 0; what is not given stays as it was.
   */
  lemma AppliedPeer(i: WgRuntime.Interface, ps: seq<Peer>, k: nat)
    requires k < |ps| && forall a, b | 0 <= a < b < |ps| :: ps[a].publicKey != ps[b].publicKey
    ensures var p, r := ps[k], WgRuntime.Applied(i, ps, true);
      && p.publicKey in r && r[p.publicKey].allowedIps == p.allowedIps
      && r[p.publicKey].endpoint ==
         (if p.endpoint.Some? && p.endpoint.value != "" then
            Some(p.endpoint.value + ":" + IntText(if p.endpointPort.Some? && p.endpointPort.value != 0 then p.endpointPort.value else 51820))
          else if p.publicKey in i then i[p.publicKey].endpoint else None)
      && r[p.publicKey].persistentKeepalive ==
         (if p.persistentKeepalive.Some? then p.persistentKeepalive
          else if p.publicKey in i then i[p.publicKey].persistentKeepalive else None)
  {
    WgRuntime.ApplyReaches(i, ps);
    assert ps[k].publicKey in WgRuntime.KeysOf(ps);
    LastIsOnly(ps, k, WgRuntime.Before(i, ps[k].publicKey));
    LastIsOnly(ps, k, WgRuntime.PeerState([], None, None));
    hide IntText; hide WgRuntime.Applied; hide WgRuntime.LastIps; hide WgRuntime.LastEndpoint; hide WgRuntime.LastKeepalive;
  }

  lemma {:induction false} LastIsOnly(ps: seq<Peer>, k: nat, prior: WgRuntime.PeerState)
    requires k < |ps| && forall a, b | 0 <= a < b < |ps| :: ps[a].publicKey != ps[b].publicKey
    ensures var p := ps[k];
      && WgRuntime.LastIps(ps, p.publicKey, prior.allowedIps) == p.allowedIps
      && WgRuntime.LastEndpoint(ps, p.publicKey, prior.endpoint) ==
         (if HasText(p.endpoint) then Some(WgRuntime.EndpointText(p)) else prior.endpoint)
      && WgRuntime.LastKeepalive(ps, p.publicKey, prior.persistentKeepalive) ==
         (if p.persistentKeepalive.Some? then p.persistentKeepalive else prior.persistentKeepalive)
  {
    hide WgRuntime.EndpointText;
    var n := |ps| - 1;
    if k < n {
      LastIsOnly(ps[..n], k, prior);
    } else {
      assert forall a | 0 <= a < |ps[..n]| :: ps[..n][a].publicKey != ps[k].publicKey;
      WgRuntime.NotGiven(ps[..n], ps[k].publicKey, prior);
    }
  }

  /** From the record to the interface: each peer of a well-formed record with distinct keys, printed, read and applied. */
  lemma PrintedPeerIsSet(c: WireGuardConfig, i: WgRuntime.Interface, k: nat)
    requires IniRoundTrip.WellFormed(c) && k < |c.peers|
    requires forall a, b | 0 <= a < b < |c.peers| :: c.peers[a].publicKey != c.peers[b].publicKey
    ensures ParseIni(IniText(c)).Parsed?
    ensures var p := c.peers[k];
      var r := WgRuntime.Applied(i, ParseIni(IniText(c)).config.peers, true);
      && p.publicKey in r && r[p.publicKey].allowedIps == p.allowedIps
      && (p.persistentKeepalive.Some? ==> r[p.publicKey].persistentKeepalive == p.persistentKeepalive)
      && (p.endpoint.Some? && p.endpoint.value != "" ==>
            && (p.endpointPort == None || p.endpointPort == Some(0) ==>
                  r[p.publicKey].endpoint == Some(p.endpoint.value + ":" + IntText(51820)))
            && (p.endpointPort.Some? && p.endpointPort.value != 0 ==>
                  r[p.publicKey].endpoint == Some(p.endpoint.value + ":" + IntText(p.endpointPort.value))))
  {
    ReadBack(c);
    var ps := ParseIni(IniText(c)).config.peers;
    hide ParseIni; hide IniText; hide IntText; hide IniRoundTrip.WellFormed; hide WgRuntime.Applied;
    assert SamePeer(c.peers[k], ps[k]);
    forall a, b | 0 <= a < b < |ps| ensures ps[a].publicKey != ps[b].publicKey {
      assert SamePeer(c.peers[a], ps[a]) && SamePeer(c.peers[b], ps[b]);
    }
    AppliedPeer(i, ps, k);
  }

  // ----- Characters and lists

  /** Word characters and white space, character by character. */
  lemma Characters(c: char)
    ensures var n := c as int;
      && (IsWord(c) <==> 48 <= n <= 57 || 65 <= n <= 90 || 97 <= n <= 122 || n == 95)
      && (n < 128 ==> (IsSpace(c) <==> n in {9, 10, 11, 12, 13, 28, 29, 30, 31, 32}))
      && (n == 0x85 || n == 0xa0 || n == 0x2028 || n == 0x3000 ==> IsSpace(c))
  {
  }

  /** Stripping takes white space off both ends, and nothing else. */
  lemma StripIs(s: string) returns (before: string, after: string)
    ensures s == before + Strip(s) + after
    ensures (forall c | c in before :: IsSpace(c)) && (forall c | c in after :: IsSpace(c))
    ensures Strip(s) != "" ==> !IsSpace(Strip(s)[0]) && !IsSpace(Strip(s)[|Strip(s)| - 1])
  {
    var n := Span(s, IsSpace);
    SpanIs(s);
    before := s[..n];
    after := RightIs(s[n..]);
    Assoc(before, Strip(s), after);
    hide IsSpace;
    assert forall c | c in before :: IsSpace(c);
  }

  lemma {:induction false} SpanIs(s: string)
    ensures var n := Span(s, IsSpace);
      (forall i | 0 <= i < n :: IsSpace(s[i])) && (n < |s| ==> !IsSpace(s[n]))
  {
    hide IsSpace;
    if s != "" && IsSpace(s[0]) {
      SpanIs(s[1..]);
    }
  }

  lemma {:induction false} RightIs(s: string) returns (after: string)
    ensures s == StripRight(s) + after && forall c | c in after :: IsSpace(c)
    ensures StripRight(s) != "" ==> !IsSpace(StripRight(s)[|StripRight(s)| - 1]) && StripRight(s)[0] == s[0]
  {
    hide IsSpace;
    if s != "" && IsSpace(s[|s| - 1]) {
      after := RightIs(s[..|s| - 1]);
      after := after + [s[|s| - 1]];
    } else {
      after := "";
    }
  }

  /** Splitting and joining give the text back, and no part holds the separator. */
  lemma {:induction false} SplitJoins(s: string, c: char)
    ensures Join(Split(s, c), [c]) == s && Split(s, c) != [] && forall part | part in Split(s, c) :: c !in part
    decreases |s|
  {
    var n := IndexOf(s, c);
    FirstIs(s, c);
    if n < |s| {
      SplitJoins(s[n + 1..], c);
      var rest := Split(s[n + 1..], c);
      assert ([s[..n]] + rest)[1..] == rest;
      assert s == s[..n] + [c] + s[n + 1..];
    }
  }

  lemma {:induction false} FirstIs(s: string, c: char)
    ensures var n := IndexOf(s, c); n <= |s| && c !in s[..n] && (n < |s| ==> s[n] == c)
  {
    if s != "" && s[0] != c {
      FirstIs(s[1..], c);
      var n := IndexOf(s, c);
      assert s[..n] == [s[0]] + s[1..][..n - 1];
    }
  }

  /** The items of a list are its parts at commas, stripped, without the empty ones. */
  lemma ItemsAre(s: string)
    ensures forall t :: t in Items(s) <==> t != "" && exists part | part in Split(s, ',') :: Strip(part) == t
  {
    NonEmptyAre(Split(s, ','));
  }

  lemma {:induction false} NonEmptyAre(parts: seq<string>)
    ensures forall t :: t in StrippedNonEmpty(parts) <==> t != "" && exists part | part in parts :: Strip(part) == t
  {
    hide Strip;
    if parts != [] {
      NonEmptyAre(parts[1..]);
      assert parts == [parts[0]] + parts[1..];
    }
  }

  /** Joining puts the separator between neighbours. */
  lemma JoinIs(a: string, parts: seq<string>, sep: string)
    ensures Join([], sep) == "" && Join([a], sep) == a
    ensures parts != [] ==> Join([a] + parts, sep) == a + sep + Join(parts, sep)
  {
    assert ([a] + parts)[1..] == parts;
  }
}
