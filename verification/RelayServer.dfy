/** The relay server: its connections, their receive buffers, and the registry of devices. */
module RelayServer {

  import opened Options
  import opened RelayWire

  /**
   * A value read from JSON. Numbers and truth values that Python holds equal are one Number; of an array or an object
   * only its text is kept, since it can be neither a key of a dictionary nor equal to a string.
   */
  datatype Json = Null | Text(text: string) | Number(value: real) | Compound(text: string, empty: bool)

  /** Whether a value can be a key of a dictionary; using any other as one raises TypeError. */
  predicate Hashable(j: Json) {
    !j.Compound?
  }

  // Python's truth.
  predicate Truthy(j: Json) {
    match j
    case Null => false
    case Text(text) => text != ""
    case Number(value) => value != 0.0
    case Compound(_, empty) => !empty
  }

  // A connection is known by a number; written is everything that was written to its transport.
  type ConnId = nat

  // No session token and no device id are Null, Python's None.
  datatype Connection = Connection(
    open: bool,
    sessionToken: Json,
    deviceId: Json,
    written: Bytes)

  datatype Registry = Registry(
    connections: map<Json, ConnId>,
    heartbeats: map<Json, real>,
    validTokens: map<string, string>)

  // What handling a message can change; receive buffers are kept apart, since no message touches one.
  datatype Core = Core(registry: Registry, conns: map<ConnId, Connection>)

  datatype State = State(core: Core, buffers: map<ConnId, Bytes>)

  const NEW_CONNECTION := Connection(true, Null, Null, [])

  // The three fields of a connect message; one that is missing is the empty string.
  datatype Connect = Connect(token: Json, deviceId: Json, sessionId: Json)

  // The JSON and text codecs that the relay uses. A reader answers None where Python raises.
  datatype Codec = Codec(
    readConnect: Bytes -> Option<Connect>,
    connectAck: (bool, Connect) -> Bytes,
    isHeartbeat: Bytes -> bool,
    heartbeatAck: Bytes,
    readText: Bytes -> Option<string>,
    forward: (Json, string) -> Bytes,
    readForward: Bytes -> Option<string>)

  const BAR: Byte := 124
  const HEARTBEAT_LIMIT := 120.0

  // ----- The registry

  function Register(r: Registry, deviceId: Json, c: ConnId, now: real): Registry {
    r.(connections := r.connections[deviceId := c], heartbeats := r.heartbeats[deviceId := now])
  }

  function Unregister(r: Registry, deviceId: Json): Registry {
    Registry(
      r.connections - {deviceId},
      r.heartbeats - {deviceId},
      map t | t in r.validTokens && Text(r.validTokens[t]) != deviceId :: r.validTokens[t])
  }

  function Beat(r: Registry, deviceId: Json, now: real): Registry {
    r.(heartbeats := r.heartbeats[deviceId := now])
  }

  // self._valid_tokens.get(token)
  function Stored(r: Registry, token: Json): Json {
    if token.Text? && token.text in r.validTokens then Text(r.validTokens[token.text]) else Null
  }

  function StaleDevices(r: Registry, now: real): set<Json> {
    set d | d in r.heartbeats && r.heartbeats[d] < now - HEARTBEAT_LIMIT
  }

  function UnregisterAll(r: Registry, ds: set<Json>): Registry {
    Registry(
      r.connections - ds,
      r.heartbeats - ds,
      map t | t in r.validTokens && Text(r.validTokens[t]) !in ds :: r.validTokens[t])
  }

  // ----- Messages

  /** _send_message: nothing is written to a closed transport, nor when the length does not fit its header. */
  function Send(s: Core, c: ConnId, msgType: Byte, body: Bytes): Core {
    var payload := Message(msgType, body);
    if c in s.conns && s.conns[c].open && Sendable(payload) then
      s.(conns := s.conns[c := s.conns[c].(written := s.conns[c].written + Frame(payload))])
    else s
  }

  function HandleConnect(codec: Codec, s: Core, c: ConnId, body: Bytes, now: real): Core
    requires c in s.conns
  {
    match codec.readConnect(body)
    case None => s
    case Some(m) =>
      var named := s.(conns := s.conns[c := s.conns[c].(sessionToken := m.token, deviceId := m.deviceId)]);
      var valid := Stored(s.registry, m.token) == m.sessionId;
      if !Hashable(m.token) || (valid && !Hashable(m.deviceId)) then named
      else
        var r := if valid then Register(s.registry, m.deviceId, c, now) else s.registry;
        Send(named.(registry := r), c, CONNECT_ACK, codec.connectAck(valid, m))
  }

  function IndexOfByte(b: Bytes, x: Byte): (n: nat)
    ensures n <= |b| && x !in b[..n] && (n < |b| ==> b[n] == x)
  {
    if b == [] || b[0] == x then 0 else 1 + IndexOfByte(b[1..], x)
  }

  function HandleData(codec: Codec, s: Core, c: ConnId, body: Bytes): Core
    requires c in s.conns
  {
    var n := IndexOfByte(body, BAR);
    if n == |body| then s
    else
      match codec.readText(body[..n])
      case None => s
      case Some(target) =>
        if Text(target) in s.registry.connections then
          Send(s, s.registry.connections[Text(target)], DATA, codec.forward(s.conns[c].deviceId, ToHex(body[n + 1..])))
        else s
  }

  // Using the connection's device id as a key raises.
  predicate Unusable(conn: Connection) {
    Truthy(conn.deviceId) && !Hashable(conn.deviceId)
  }

  function UnregisterNamed(r: Registry, conn: Connection): Registry {
    if Truthy(conn.deviceId) then Unregister(r, conn.deviceId) else r
  }

  function HandleDisconnect(s: Core, c: ConnId): Core
    requires c in s.conns
  {
    if Unusable(s.conns[c]) then s
    else
      Core(UnregisterNamed(s.registry, s.conns[c]), s.conns[c := s.conns[c].(sessionToken := Null, deviceId := Null)])
  }

  function HandleHeartbeat(codec: Codec, s: Core, c: ConnId, body: Bytes, now: real): Core
    requires c in s.conns
  {
    if !codec.isHeartbeat(body) || Unusable(s.conns[c]) then s
    else
      var r := if Truthy(s.conns[c].deviceId) then Beat(s.registry, s.conns[c].deviceId, now) else s.registry;
      Send(s.(registry := r), c, HEARTBEAT_ACK, codec.heartbeatAck)
  }

  /** _handle_message, which catches every exception. */
  function HandleMessage(codec: Codec, s: Core, c: ConnId, payload: Bytes, now: real): Core
    requires c in s.conns
  {
    if !(MAGIC <= payload) || |payload| == |MAGIC| then s
    else
      var msgType, body := payload[|MAGIC|], payload[|MAGIC| + 1..];
      if msgType == PING then Send(s, c, PONG, [])
      else if msgType == CONNECT then HandleConnect(codec, s, c, body, now)
      else if msgType == DATA then HandleData(codec, s, c, body)
      else if msgType == DISCONNECT then HandleDisconnect(s, c)
      else if msgType == HEARTBEAT then HandleHeartbeat(codec, s, c, body, now)
      else s
  }

  function HandleAll(codec: Codec, s: Core, c: ConnId, payloads: seq<Bytes>, now: real): (r: Core)
    requires c in s.conns
    ensures r.conns.Keys == s.conns.Keys
    decreases |payloads|
  {
    if payloads == [] then s
    else HandleAll(codec, HandleMessage(codec, s, c, payloads[0], now), c, payloads[1..], now)
  }

  /** What receiving data does: the whole frames are handled in order, the rest stays in the buffer. */
  function Received(codec: Codec, s: State, c: ConnId, data: Bytes, now: real): State
    requires c in s.core.conns && c in s.buffers
  {
    var d := Deframe(s.buffers[c] + data);
    State(HandleAll(codec, s.core, c, d.payloads, now), s.buffers[c := d.rest])
  }

  // ----- The server object

  class Server {
    const codec: Codec
    var registry: Registry
    var conns: map<ConnId, Connection>
    var buffers: map<ConnId, Bytes>

    function Snapshot(): State
      reads this
    {
      State(Core(registry, conns), buffers)
    }

    constructor (codec: Codec)
      ensures this.codec == codec && Snapshot() == EMPTY
    {
      this.codec := codec;
      registry := Registry(map[], map[], map[]);
      conns := map[];
      buffers := map[];
    }

    method ConnectionMade(c: ConnId)
      requires c !in conns
      modifies this
      ensures Snapshot() == Next(codec, old(Snapshot()), Made(c))
    {
      conns := conns[c := NEW_CONNECTION];
      buffers := buffers[c := []];
    }

    // An exception leaves the connection as it is.
    method ConnectionLost(c: ConnId)
      requires c in conns
      modifies this
      ensures Snapshot() == Next(codec, old(Snapshot()), LostConn(c))
    {
      if Truthy(conns[c].deviceId) {
        if !Hashable(conns[c].deviceId) {
          return;
        }
        UnregisterConnection(conns[c].deviceId);
      }
      conns := conns[c := conns[c].(open := false)];
    }

    method RegisterConnection(deviceId: Json, c: ConnId, now: real)
      modifies this`registry
      ensures registry == Register(old(registry), deviceId, c, now)
    {
      registry := registry.(connections := registry.connections[deviceId := c]);
      registry := registry.(heartbeats := registry.heartbeats[deviceId := now]);
    }

    method UnregisterConnection(deviceId: Json)
      modifies this`registry
      ensures registry == Unregister(old(registry), deviceId)
    {
      registry := registry.(connections := registry.connections - {deviceId});
      registry := registry.(heartbeats := registry.heartbeats - {deviceId});
      registry := registry.(validTokens :=
        map t | t in registry.validTokens && Text(registry.validTokens[t]) != deviceId :: registry.validTokens[t]);
    }

    method AddValidToken(token: string, sessionId: string)
      modifies this
      ensures Snapshot() == Next(codec, old(Snapshot()), Token(token, sessionId))
    {
      registry := registry.(validTokens := registry.validTokens[token := sessionId]);
    }

    method UpdateHeartbeat(deviceId: Json, now: real)
      modifies this`registry
      ensures registry == Beat(old(registry), deviceId, now)
      ensures Hashable(deviceId) ==> Snapshot() == Next(codec, old(Snapshot()), ApiBeat(deviceId, now))
    {
      registry := registry.(heartbeats := registry.heartbeats[deviceId := now]);
    }

    method SendMessage(c: ConnId, msgType: Byte, body: Bytes)
      modifies this`conns
      ensures Core(registry, conns) == Send(old(Core(registry, conns)), c, msgType, body)
    {
      var payload := MAGIC + [msgType] + body;
      if c in conns && conns[c].open && Sendable(payload) {
        conns := conns[c := conns[c].(written := conns[c].written + Pack(|payload|) + payload)];
        assert conns[c].written == old(conns)[c].written + Frame(payload);
      }
    }

    // The handlers return where the source raises; Process catches every exception.
    method ProcessConnect(c: ConnId, body: Bytes, now: real)
      requires c in conns
      modifies this`registry, this`conns
      ensures Core(registry, conns) == HandleConnect(codec, old(Core(registry, conns)), c, body, now)
    {
      hide Send; hide Register;
      var data := codec.readConnect(body);
      if data.None? {
        return;
      }
      var m := data.value;
      conns := conns[c := conns[c].(sessionToken := m.token)];
      conns := conns[c := conns[c].(deviceId := m.deviceId)];
      assert conns == old(conns)[c := old(conns)[c].(sessionToken := m.token, deviceId := m.deviceId)];
      if !Hashable(m.token) {
        return;
      }
      var isValid := Stored(registry, m.token) == m.sessionId;
      if isValid {
        if !Hashable(m.deviceId) {
          return;
        }
        RegisterConnection(m.deviceId, c, now);
      }
      SendMessage(c, CONNECT_ACK, codec.connectAck(isValid, m));
    }

    method ProcessData(c: ConnId, body: Bytes)
      requires c in conns
      modifies this`conns
      ensures Core(registry, conns) == HandleData(codec, old(Core(registry, conns)), c, body)
    {
      var headerEnd := IndexOfByte(body, BAR);
      if headerEnd == |body| {
        return;
      }
      var target := codec.readText(body[..headerEnd]);
      if target.Some? && Text(target.value) in registry.connections {
        var forward := codec.forward(conns[c].deviceId, ToHex(body[headerEnd + 1..]));
        SendMessage(registry.connections[Text(target.value)], DATA, forward);
      }
    }

    method ProcessDisconnect(c: ConnId)
      requires c in conns
      modifies this`registry, this`conns
      ensures Core(registry, conns) == HandleDisconnect(old(Core(registry, conns)), c)
    {
      if Truthy(conns[c].deviceId) {
        if !Hashable(conns[c].deviceId) {
          return;
        }
        UnregisterConnection(conns[c].deviceId);
      }
      conns := conns[c := conns[c].(sessionToken := Null)];
      conns := conns[c := conns[c].(deviceId := Null)];
    }

    method ProcessHeartbeat(c: ConnId, body: Bytes, now: real)
      requires c in conns
      modifies this`registry, this`conns
      ensures Core(registry, conns) == HandleHeartbeat(codec, old(Core(registry, conns)), c, body, now)
    {
      if !codec.isHeartbeat(body) {
        return;
      }
      if Truthy(conns[c].deviceId) {
        if !Hashable(conns[c].deviceId) {
          return;
        }
        UpdateHeartbeat(conns[c].deviceId, now);
      }
      SendMessage(c, HEARTBEAT_ACK, codec.heartbeatAck);
    }

    method Process(c: ConnId, payload: Bytes, now: real)
      requires c in conns
      modifies this`registry, this`conns
      ensures Core(registry, conns) == HandleMessage(codec, old(Core(registry, conns)), c, payload, now)
    {
      hide HandleConnect; hide HandleData; hide HandleDisconnect; hide HandleHeartbeat; hide Send;
      if !(MAGIC <= payload) {
        return;
      }
      var inner := payload[|MAGIC|..];
      if inner == [] {
        return;
      }
      var msgType, body := inner[0], inner[1..];
      assert body == payload[|MAGIC| + 1..];
      if msgType == PING {
        SendMessage(c, PONG, []);
      } else if msgType == CONNECT {
        ProcessConnect(c, body, now);
      } else if msgType == DATA {
        ProcessData(c, body);
      } else if msgType == DISCONNECT {
        ProcessDisconnect(c);
      } else if msgType == HEARTBEAT {
        ProcessHeartbeat(c, body, now);
      }
    }

    method DataReceived(c: ConnId, data: Bytes, now: real)
      requires c in conns && c in buffers
      modifies this
      ensures Snapshot() == Next(codec, old(Snapshot()), Data(c, data, now))
    {
      ghost var all := Received(codec, Snapshot(), c, data, now);
      buffers := buffers[c := buffers[c] + data];
      while HasFrame(buffers[c])
        invariant c in conns && c in buffers
        invariant buffers == old(buffers)[c := buffers[c]]
        invariant Deframe(buffers[c]).rest == all.buffers[c]
        invariant HandleAll(codec, Core(registry, conns), c, Deframe(buffers[c]).payloads, now) == all.core
        decreases |buffers[c]|
      {
        var n := FrameEnd(buffers[c]);
        var payload := buffers[c][HEADER_SIZE..n];
        ghost var rest := Deframe(buffers[c][n..]).payloads;
        assert ([payload] + rest)[1..] == rest;
        buffers := buffers[c := buffers[c][n..]];
        Process(c, payload, now);
      }
    }

    method RemoveExpiredTokens(now: real)
      modifies this
      ensures Snapshot() == Next(codec, old(Snapshot()), Expire(now))
    {
      var stale := StaleDevices(registry, now);
      ghost var all, r0 := stale, registry;
      assert all - stale == {} && UnregisterAll(r0, {}) == r0;
      while stale != {}
        invariant stale <= all && conns == old(conns) && buffers == old(buffers)
        invariant registry == UnregisterAll(r0, all - stale)
      {
        var d :| d in stale;
        UnregisterConnection(d);
        stale := stale - {d};
        assert registry.connections == r0.connections - (all - stale);
        assert registry.heartbeats == r0.heartbeats - (all - stale);
      }
      assert all - stale == all;
    }
  }

  lemma HandleKeysKept(codec: Codec, s: Core, c: ConnId, payload: Bytes, now: real)
    requires c in s.conns
    ensures HandleMessage(codec, s, c, payload, now).conns.Keys == s.conns.Keys
  {
  }

  // ----- Runs of the server

  datatype Step =
    | Made(c: ConnId)
    | Data(c: ConnId, data: Bytes, now: real)
    | LostConn(c: ConnId)
    | Token(token: string, sessionId: string)
    | ApiBeat(deviceId: Json, now: real)
    | Expire(now: real)

  const EMPTY := State(Core(Registry(map[], map[], map[]), map[]), map[])

  function Lost(s: Core, c: ConnId): Core
    requires c in s.conns
  {
    if Unusable(s.conns[c]) then s
    else Core(UnregisterNamed(s.registry, s.conns[c]), s.conns[c := s.conns[c].(open := false)])
  }

  function WithRegistry(s: State, r: Registry): State {
    s.(core := s.core.(registry := r))
  }

  /** One event at the server; an event of a connection that does not exist is none. */
  function Next(codec: Codec, s: State, step: Step): State {
    var r := s.core.registry;
    match step
    case Made(c) =>
      if c in s.core.conns then s
      else State(s.core.(conns := s.core.conns[c := NEW_CONNECTION]), s.buffers[c := []])
    case Data(c, data, now) => if c in s.core.conns && c in s.buffers then Received(codec, s, c, data, now) else s
    case LostConn(c) => if c in s.core.conns then s.(core := Lost(s.core, c)) else s
    case Token(token, sessionId) => WithRegistry(s, r.(validTokens := r.validTokens[token := sessionId]))
    case ApiBeat(deviceId, now) => if Hashable(deviceId) then WithRegistry(s, Beat(r, deviceId, now)) else s
    case Expire(now) => WithRegistry(s, UnregisterAll(r, StaleDevices(r, now)))
  }

  function Run(codec: Codec, steps: seq<Step>): State {
    if steps == [] then EMPTY
    else Next(codec, Run(codec, steps[..|steps| - 1]), steps[|steps| - 1])
  }

  /** Every registered device has a heartbeat and an existing connection. */
  ghost predicate Consistent(s: Core) {
    forall d | d in s.registry.connections :: d in s.registry.heartbeats && s.registry.connections[d] in s.conns
  }

  lemma MessageKeepsConsistent(codec: Codec, s: Core, c: ConnId, payload: Bytes, now: real)
    requires c in s.conns && Consistent(s)
    ensures Consistent(HandleMessage(codec, s, c, payload, now))
  {
    HandleKeysKept(codec, s, c, payload, now);
  }

  lemma {:induction false} MessagesKeepConsistent(codec: Codec, s: Core, c: ConnId, payloads: seq<Bytes>, now: real)
    requires c in s.conns && Consistent(s)
    ensures Consistent(HandleAll(codec, s, c, payloads, now))
    decreases |payloads|
  {
    if payloads != [] {
      MessageKeepsConsistent(codec, s, c, payloads[0], now);
      HandleKeysKept(codec, s, c, payloads[0], now);
      hide HandleMessage;
      MessagesKeepConsistent(codec, HandleMessage(codec, s, c, payloads[0], now), c, payloads[1..], now);
    }
  }

  /**
   * In every reachable state each registered device has a heartbeat entry, and right after an expiry at a given time
   * every heartbeat is at most 120 seconds old.
   */
  lemma {:induction false} RegistryInvariant(codec: Codec, steps: seq<Step>)
    ensures Consistent(Run(codec, steps).core)
    ensures Run(codec, steps).buffers.Keys == Run(codec, steps).core.conns.Keys
    ensures steps != [] && steps[|steps| - 1].Expire? ==>
      var r := Run(codec, steps).core.registry;
      forall d | d in r.heartbeats :: r.heartbeats[d] >= steps[|steps| - 1].now - HEARTBEAT_LIMIT
  {
    hide HandleAll; hide Deframe;
    if steps != [] {
      var init, last := steps[..|steps| - 1], steps[|steps| - 1];
      RegistryInvariant(codec, init);
      var s := Run(codec, init);
      if last.Data? && last.c in s.core.conns {
        MessagesKeepConsistent(codec, s.core, last.c, Deframe(s.buffers[last.c] + last.data).payloads, last.now);
      }
    }
  }

  // The connect message in a payload, if there is one.
  function ConnectIn(codec: Codec, payload: Bytes): Option<Connect> {
    if MAGIC <= payload && |payload| > |MAGIC| && payload[|MAGIC|] == CONNECT then codec.readConnect(payload[|MAGIC| + 1..])
    else None
  }

  // The source's notion of a valid session. It compares with None when the token is unknown.
  predicate Presents(r: Registry, m: Connect) {
    && Hashable(m.token)
    && if m.token.Text? && m.token.text in r.validTokens then m.sessionId == Text(r.validTokens[m.token.text])
       else m.sessionId.Null?
  }

  predicate IsDisconnect(payload: Bytes) {
    MAGIC <= payload && |payload| > |MAGIC| && payload[|MAGIC|] == DISCONNECT
  }

  predicate RegistersNow(codec: Codec, r: Registry, payload: Bytes, d: Json) {
    var m := ConnectIn(codec, payload);
    m.Some? && m.value.deviceId == d && Hashable(d) && Presents(r, m.value)
  }

  /**
   * A message changes who a device is reached through in two ways only. It registers the device for its own
   * connection if and only if it is a connect message that names the device and either presents a known token with its
   * session, or an unknown token with a null session id. It takes a registered device off if and only if it is a
   * disconnect on a connection that has named the device.
   */
  lemma RegistrationIff(codec: Codec, s: Core, c: ConnId, payload: Bytes, now: real, d: Json)
    requires c in s.conns
    ensures var before, after := s.registry.connections, HandleMessage(codec, s, c, payload, now).registry.connections;
      && (RegistersNow(codec, s.registry, payload, d) ==> d in after && after[d] == c)
      && (!RegistersNow(codec, s.registry, payload, d) && d in after ==> d in before && after[d] == before[d])
      && (d in before ==>
            (d !in after <==> IsDisconnect(payload) && Truthy(d) && Hashable(d) && s.conns[c].deviceId == d))
  {
    hide ToHex; hide IndexOfByte; hide Message;
  }

  // The connection that a data message goes to.
  function TargetOf(codec: Codec, r: Registry, payload: Bytes): Option<ConnId> {
    if !(MAGIC <= payload) || |payload| == |MAGIC| || payload[|MAGIC|] != DATA then None
    else
      var body := payload[|MAGIC| + 1..];
      var n := IndexOfByte(body, BAR);
      if n == |body| then None
      else
        var target := codec.readText(body[..n]);
        if target.Some? && Text(target.value) in r.connections then Some(r.connections[Text(target.value)]) else None
  }

  /** A message changes no connection but its own, except that a data message may add bytes to its target's stream. */
  lemma MessageIsConfined(codec: Codec, s: Core, c: ConnId, payload: Bytes, now: real, x: ConnId)
    requires c in s.conns && x in s.conns
    ensures var after := HandleMessage(codec, s, c, payload, now).conns;
      && x in after && s.conns[x].written <= after[x].written
      && (x != c ==> after[x] == s.conns[x].(written := after[x].written))
      && (x != c && after[x] != s.conns[x] ==> s.conns[x].open && TargetOf(codec, s.registry, payload) == Some(x))
  {
    hide ToHex; hide IndexOfByte; hide Message; hide Frame; hide Sendable;
  }

  /** An unknown token with a null session id registers any device. */
  lemma NullSessionRegisters(codec: Codec, s: Core, c: ConnId, payload: Bytes, now: real, token: string, d: Json)
    requires c in s.conns && token !in s.registry.validTokens && Hashable(d)
    requires ConnectIn(codec, payload) == Some(Connect(Text(token), d, Null))
    ensures var after := HandleMessage(codec, s, c, payload, now).registry.connections; d in after && after[d] == c
  {
    RegistrationIff(codec, s, c, payload, now, d);
  }
}
