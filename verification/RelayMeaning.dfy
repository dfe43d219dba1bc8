/** The relay in literal terms: the bytes of its messages, and what the server does with each kind of message. */
module RelayMeaning {

  import opened Options
  import opened RelayWire
  import opened RelayServer
  import RelayClient

  // ----- Bytes

  /** A frame is the length as four bytes, most significant first, and the payload. */
  lemma FrameIs(payload: Bytes, a: Byte, b: Byte, c: Byte, d: Byte)
    requires |payload| == 0x100_0000 * a + 0x1_0000 * b + 0x100 * c + d
    ensures Sendable(payload) && Frame(payload) == [a, b, c, d] + payload
  {
    PackIs(|payload|, a, b, c, d);
    hide Pack;
  }

  /** A message is the text MIDSCALE_RELAY_V1, its type and its body. */
  lemma MessageIs(msgType: Byte, body: Bytes)
    ensures var text, m := "MIDSCALE_RELAY_V1", Message(msgType, body);
      && |m| == 18 + |body| && (forall i | 0 <= i < 17 :: m[i] == text[i] as int)
      && m[17] == msgType && m[18..] == body
  {
    var text := "MIDSCALE_RELAY_V1";
    assert forall i | 0 <= i < 17 :: MAGIC[i] == text[i] as int;
  }

  // A payload that the server takes for a message of this type and body, as MessageIs spells it out.
  ghost predicate IsMessage(payload: Bytes, msgType: Byte, body: Bytes) {
    && |payload| == 18 + |body| && payload[17] == msgType && payload[18..] == body
    && forall i | 0 <= i < 17 :: payload[i] == "MIDSCALE_RELAY_V1"[i] as int
  }

  lemma MessageRead(payload: Bytes, msgType: Byte, body: Bytes)
    requires IsMessage(payload, msgType, body)
    ensures payload == Message(msgType, body)
    ensures MAGIC <= payload && |payload| > |MAGIC| && payload[|MAGIC|] == msgType && payload[|MAGIC| + 1..] == body
  {
    MessageIs(msgType, body);
    var m := Message(msgType, body);
    assert m[18..] == payload[18..];
    forall i | 0 <= i < |m| ensures m[i] == payload[i] {
      if i >= 18 { assert m[18..][i - 18] == payload[18..][i - 18]; }
    }
  }

  /** Hexadecimal text: two lower-case digits a byte. */
  lemma HexIs(n: Byte, b: Bytes)
    ensures ToHex([]) == "" && ToHex([n] + b) == ["0123456789abcdef"[n / 16], "0123456789abcdef"[n % 16]] + ToHex(b)
  {
    assert ([n] + b)[1..] == b;
    Digits(n / 16);
    Digits(n % 16);
  }

  /** Reading takes upper-case digits and white space between bytes too, and nothing else. */
  lemma HexReadIs(n: Byte, s: string)
    ensures FromHex("") == Some([]) && FromHex(" " + s) == FromHex(s)
    ensures FromHex(["0123456789ABCDEF"[n / 16], "0123456789ABCDEF"[n % 16]] + s) ==
      match FromHex(s)
      case None => None
      case Some(more) => Some([n] + more)
  {
    assert (" " + s)[1..] == s;
    Digits(n / 16);
    Digits(n % 16);
    var hi, lo := "0123456789ABCDEF"[n / 16], "0123456789ABCDEF"[n % 16];
    var t := [hi, lo] + s;
    assert t[2..] == s && t[0] == hi && t[1] == lo;
    hide HexValue;
  }

  lemma BadHex(s: string)
    ensures FromHex("g0" + s) == None && FromHex("0g" + s) == None && FromHex("a") == None
  {
    assert ("g0" + s)[0] == 'g' && ("0g" + s)[1] == 'g' && ("0g" + s)[0] == '0';
  }

  lemma Digits(n: nat)
    requires n < 16
    ensures HexDigit(n) == "0123456789abcdef"[n]
    ensures HexValue("0123456789ABCDEF"[n]) == Some(n) && "0123456789ABCDEF"[n] != ' ' && "0123456789ABCDEF"[n] as int > 13
  {
  }

  // ----- Messages to the server

  // What was written to a connection, with one message more when it is open and the message fits.
  function Written(s: Core, c: ConnId, msgType: Byte, body: Bytes): Bytes
    requires c in s.conns
  {
    if s.conns[c].open && Sendable(Message(msgType, body)) then s.conns[c].written + Frame(Message(msgType, body))
    else s.conns[c].written
  }

  /** Type 1, a ping, is answered by type 2; nothing else changes. */
  lemma PingIs(codec: Codec, s: Core, c: ConnId, payload: Bytes, body: Bytes, now: real)
    requires c in s.conns && IsMessage(payload, 1, body)
    ensures HandleMessage(codec, s, c, payload, now) ==
      s.(conns := s.conns[c := s.conns[c].(written := Written(s, c, 2, []))])
  {
    MessageRead(payload, 1, body);
    hide Message; hide Frame; hide Sendable; hide HandleConnect; hide HandleData; hide HandleDisconnect; hide HandleHeartbeat;
    SameWritten(s, c);
  }

  lemma SameWritten(s: Core, c: ConnId)
    requires c in s.conns
    ensures s.(conns := s.conns[c := s.conns[c].(written := s.conns[c].written)]) == s
  {
    assert s.conns[c := s.conns[c]] == s.conns;
  }

  // The session is as stored for the token, or both are missing.
  predicate IsValid(r: Registry, m: Connect) {
    || (m.token.Text? && m.token.text in r.validTokens && m.sessionId == Text(r.validTokens[m.token.text]))
    || (!(m.token.Text? && m.token.text in r.validTokens) && m.sessionId.Null?)
  }

  /**
   * Type 4, a connect, names the connection's token and device, whatever comes of it. With a token and, when valid, a
   * device that can be keys it is answered by type 5, which says whether it is valid; a valid one registers the device.
   */
  lemma ConnectIs(codec: Codec, s: Core, c: ConnId, payload: Bytes, body: Bytes, m: Connect, now: real)
    requires c in s.conns && IsMessage(payload, 4, body) && codec.readConnect(body) == Some(m)
    ensures var s' := HandleMessage(codec, s, c, payload, now);
      var ok := !m.token.Compound? && !(IsValid(s.registry, m) && m.deviceId.Compound?);
      && s'.conns == s.conns[c := s'.conns[c]]
      && s'.conns[c].sessionToken == m.token && s'.conns[c].deviceId == m.deviceId && s'.conns[c].open == s.conns[c].open
      && s'.conns[c].written ==
         (if ok then Written(s, c, 5, codec.connectAck(IsValid(s.registry, m), m)) else s.conns[c].written)
      && s'.registry ==
         (if ok && IsValid(s.registry, m) then
            Registry(s.registry.connections[m.deviceId := c], s.registry.heartbeats[m.deviceId := now], s.registry.validTokens)
          else s.registry)
  {
    MessageRead(payload, 4, body);
    hide Message; hide Frame; hide Sendable; hide HandleData; hide HandleDisconnect; hide HandleHeartbeat;
  }

  /** Type 6, a disconnect, forgets token and device; a device that is a key and not empty goes off, with its tokens. */
  lemma DisconnectIs(codec: Codec, s: Core, c: ConnId, payload: Bytes, body: Bytes, now: real)
    requires c in s.conns && IsMessage(payload, 6, body)
    ensures var d, s' := s.conns[c].deviceId, HandleMessage(codec, s, c, payload, now);
      && (d.Compound? && !d.empty ==> s' == s)
      && (!(d.Compound? && !d.empty) ==>
            && s'.conns == s.conns[c := s.conns[c].(sessionToken := Null, deviceId := Null)]
            && (d == Null || d == Text("") || d == Number(0.0) || d.Compound? ==> s'.registry == s.registry)
            && (d != Null && d != Text("") && d != Number(0.0) && !d.Compound? ==> IsWithout(s.registry, s'.registry, d)))
  {
    MessageRead(payload, 6, body);
    hide Message; hide Frame; hide Sendable; hide HandleData; hide HandleConnect; hide HandleHeartbeat;
  }

  /** The registry without a device: its connection, its heartbeat, and the tokens for a session of its name. */
  ghost predicate IsWithout(r: Registry, r': Registry, d: Json) {
    && (forall x :: x in r'.connections <==> x in r.connections && x != d)
    && (forall x | x in r'.connections :: r'.connections[x] == r.connections[x])
    && (forall x :: x in r'.heartbeats <==> x in r.heartbeats && x != d)
    && (forall x | x in r'.heartbeats :: r'.heartbeats[x] == r.heartbeats[x])
    && (forall t :: t in r'.validTokens <==> t in r.validTokens && Text(r.validTokens[t]) != d)
    && (forall t | t in r'.validTokens :: r'.validTokens[t] == r.validTokens[t])
  }

  /** Type 7, a heartbeat, sets the heartbeat of the named device and is answered by type 8. */
  lemma HeartbeatIs(codec: Codec, s: Core, c: ConnId, payload: Bytes, body: Bytes, now: real)
    requires c in s.conns && IsMessage(payload, 7, body)
    ensures var d, s' := s.conns[c].deviceId, HandleMessage(codec, s, c, payload, now);
      && (!codec.isHeartbeat(body) || (d.Compound? && !d.empty) ==> s' == s)
      && (codec.isHeartbeat(body) && !(d.Compound? && !d.empty) ==>
            && s'.conns == s.conns[c := s.conns[c].(written := Written(s, c, 8, codec.heartbeatAck))]
            && s'.registry ==
               if d == Null || d == Text("") || d == Number(0.0) || d.Compound? then s.registry
               else s.registry.(heartbeats := s.registry.heartbeats[d := now]))
  {
    MessageRead(payload, 7, body);
    hide Message; hide Frame; hide Sendable; hide HandleData; hide HandleConnect; hide HandleDisconnect;
    assert s.conns[c := s.conns[c]] == s.conns;
  }

  /**
   * Type 3, data: what is before the first bar names the target, what is behind it goes to the connection registered for
   * the target, as type 3, with the sender's device.
   */
  lemma DataIs(codec: Codec, s: Core, c: ConnId, payload: Bytes, target: Bytes, data: Bytes, id: string, now: real)
    requires c in s.conns && IsMessage(payload, 3, target + [124] + data) && 124 !in target
    requires codec.readText(target) == Some(id)
    ensures var s' := HandleMessage(codec, s, c, payload, now);
      && s'.registry == s.registry
      && (Text(id) !in s.registry.connections ==> s' == s)
      && (Text(id) in s.registry.connections && s.registry.connections[Text(id)] in s.conns ==>
            var b := s.registry.connections[Text(id)];
            s'.conns == s.conns[b := s.conns[b].(written := Written(s, b, 3, codec.forward(s.conns[c].deviceId, ToHex(data))))])
  {
    MessageRead(payload, 3, target + [124] + data);
    FirstBar(target, data);
    hide Message; hide Frame; hide Sendable; hide HandleConnect; hide HandleDisconnect; hide HandleHeartbeat; hide ToHex; hide IndexOfByte;
    if Text(id) in s.registry.connections && s.registry.connections[Text(id)] in s.conns {
      var b := s.registry.connections[Text(id)];
      assert s.conns[b := s.conns[b]] == s.conns;
    }
  }

  lemma {:induction false} FirstBar(target: Bytes, data: Bytes)
    requires 124 !in target
    ensures var body := target + [124] + data;
      IndexOfByte(body, BAR) == |target| && body[..|target|] == target && body[|target| + 1..] == data
  {
    var body := target + [124] + data;
    assert body[|target|] == BAR;
    if target != [] {
      assert body[1..] == target[1..] + [124] + data;
      FirstBar(target[1..], data);
    }
  }

  /** Data without a bar, or for a target that is no text, and any other type, do nothing, nor does what is no message. */
  lemma NothingElse(codec: Codec, s: Core, c: ConnId, payload: Bytes, msgType: Byte, body: Bytes, now: real)
    requires c in s.conns && IsMessage(payload, msgType, body)
    ensures msgType == 3 && 124 !in body ==> HandleMessage(codec, s, c, payload, now) == s
    ensures msgType == 4 && codec.readConnect(body) == None ==> HandleMessage(codec, s, c, payload, now) == s
    ensures msgType !in {1, 3, 4, 6, 7} ==> HandleMessage(codec, s, c, payload, now) == s
  {
    MessageRead(payload, msgType, body);
    if msgType == 3 && 124 !in body {
      NoBar(body);
    }
    hide Message; hide Frame; hide Sendable; hide HandleDisconnect; hide HandleHeartbeat; hide ToHex;
  }

  lemma {:induction false} NoBar(body: Bytes)
    requires 124 !in body
    ensures IndexOfByte(body, BAR) == |body|
  {
    if body != [] {
      NoBar(body[1..]);
    }
  }

  lemma NoMessage(codec: Codec, s: Core, c: ConnId, payload: Bytes, now: real)
    requires c in s.conns
    requires |payload| < 18 || exists i | 0 <= i < 17 :: payload[i] != "MIDSCALE_RELAY_V1"[i] as int
    ensures HandleMessage(codec, s, c, payload, now) == s
  {
    MessageIs(1, []);
    hide HandleConnect; hide HandleData; hide HandleDisconnect; hide HandleHeartbeat; hide Send;
    assert forall i | 0 <= i < 17 :: Message(1, [])[i] == MAGIC[i];
  }

  // ----- Other events

  /** A lost connection is closed and its device goes off, unless its device cannot be a key; then nothing changes. */
  lemma LostIs(codec: Codec, s: State, c: ConnId)
    requires c in s.core.conns
    ensures var d, s' := s.core.conns[c].deviceId, Next(codec, s, LostConn(c));
      && s'.buffers == s.buffers
      && (d.Compound? && !d.empty ==> s' == s)
      && (!(d.Compound? && !d.empty) ==>
            && s'.core.conns == s.core.conns[c := s.core.conns[c].(open := false)]
            && (d == Null || d == Text("") || d == Number(0.0) || d.Compound? ==> s'.core.registry == s.core.registry)
            && (d != Null && d != Text("") && d != Number(0.0) && !d.Compound? ==>
                  IsWithout(s.core.registry, s'.core.registry, d)))
  {
  }

  /** A new connection is open, unnamed and empty. */
  lemma MadeIs(codec: Codec, s: State, c: ConnId)
    requires c !in s.core.conns
    ensures Next(codec, s, Made(c)) ==
      State(Core(s.core.registry, s.core.conns[c := Connection(true, Null, Null, [])]), s.buffers[c := []])
  {
  }

  /** A heartbeat from the API sets the entry of the device, registered or not; a new token is valid for its session. */
  lemma ApiSteps(codec: Codec, s: State, d: Json, now: real, token: string, session: string)
    ensures !d.Compound? ==>
      Next(codec, s, ApiBeat(d, now)) ==
      s.(core := s.core.(registry := s.core.registry.(heartbeats := s.core.registry.heartbeats[d := now])))
    ensures d.Compound? ==> Next(codec, s, ApiBeat(d, now)) == s
    ensures Next(codec, s, Token(token, session)) ==
      s.(core := s.core.(registry := s.core.registry.(validTokens := s.core.registry.validTokens[token := session])))
  {
  }

  /** An expiry takes off exactly the devices whose heartbeat is more than 120 seconds old. */
  lemma ExpiryIs(codec: Codec, s: State, now: real, d: Json)
    ensures var r, s' := s.core.registry, Next(codec, s, Expire(now));
      var r' := s'.core.registry;
      var out := d in r.heartbeats && r.heartbeats[d] < now - 120.0;
      && s'.core.conns == s.core.conns && s'.buffers == s.buffers
      && (d in r'.connections <==> d in r.connections && !out)
      && (d in r'.heartbeats <==> d in r.heartbeats && !out)
      && (d in r'.connections ==> r'.connections[d] == r.connections[d])
      && (d in r'.heartbeats ==> r'.heartbeats[d] == r.heartbeats[d])
      && forall t | t in r.validTokens && Text(r.validTokens[t]) == d :: t in r'.validTokens <==> !out
  {
  }

  // ----- The client

  /** A client takes data from type 3 only: the hexadecimal text in its JSON. */
  lemma ClientTakes(codec: Codec, payload: Bytes, msgType: Byte, body: Bytes)
    requires IsMessage(payload, msgType, body)
    ensures msgType != 3 || codec.readForward(body) == None ==> RelayClient.RelayedBytes(codec, payload) == None
    ensures msgType == 3 && codec.readForward(body).Some? ==>
      RelayClient.RelayedBytes(codec, payload) == FromHex(codec.readForward(body).value)
  {
    MessageRead(payload, msgType, body);
    hide FromHex;
  }

  lemma ClientIgnores(codec: Codec, payload: Bytes)
    requires |payload| < 18 || exists i | 0 <= i < 17 :: payload[i] != "MIDSCALE_RELAY_V1"[i] as int
    ensures RelayClient.RelayedBytes(codec, payload) == None
  {
    MessageIs(1, []);
    assert forall i | 0 <= i < 17 :: Message(1, [])[i] == MAGIC[i];
  }

  /** The read loop goes on after a timeout and stops at an empty read, the end or an error. */
  lemma ReadsAre(data: Bytes, more: seq<RelayClient.Read>)
    ensures RelayClient.ChunksRead([RelayClient.Timeout] + more) == RelayClient.ChunksRead(more)
    ensures data != [] ==> RelayClient.ChunksRead([RelayClient.Got(data)] + more) == [data] + RelayClient.ChunksRead(more)
    ensures RelayClient.ChunksRead([RelayClient.Got([])] + more) == RelayClient.ChunksRead([RelayClient.Closed] + more)
      == RelayClient.ChunksRead([RelayClient.Broken] + more) == RelayClient.ChunksRead([]) == []
  {
    assert ([RelayClient.Timeout] + more)[1..] == more && ([RelayClient.Got(data)] + more)[1..] == more;
  }
}
