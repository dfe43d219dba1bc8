/** Relayed data over whole runs of the server: what a client is handed is what was addressed to it, in order. */
module RelayDelivery {

  import opened Options
  import opened Seqs
  import opened RelayWire
  import opened RelayServer
  import opened RelayRuns
  import opened RelayClient

  // What a data message carries, behind the first bar.
  function DataOf(payload: Bytes): Bytes {
    if |payload| <= |MAGIC| then []
    else
      var body := payload[|MAGIC| + 1..];
      var n := IndexOfByte(body, BAR);
      if n < |body| then body[n + 1..] else []
  }

  /** What the server answers to the sender of a message, if anything. */
  function Reply(codec: Codec, s: Core, c: ConnId, payload: Bytes): Option<Bytes>
    requires c in s.conns
  {
    if !(MAGIC <= payload) || |payload| == |MAGIC| then None
    else
      var msgType, body := payload[|MAGIC|], payload[|MAGIC| + 1..];
      if msgType == PING then Some(Message(PONG, []))
      else if msgType == CONNECT && codec.readConnect(body).Some? then
        var m := codec.readConnect(body).value;
        var valid := Stored(s.registry, m.token) == m.sessionId;
        if Hashable(m.token) && (valid ==> Hashable(m.deviceId)) then Some(Message(CONNECT_ACK, codec.connectAck(valid, m)))
        else None
      else if msgType == HEARTBEAT && codec.isHeartbeat(body) && !Unusable(s.conns[c]) then
        Some(Message(HEARTBEAT_ACK, codec.heartbeatAck))
      else None
  }

  /** The messages that connection b is sent when c is heard: at most one, a forwarded message or an answer. */
  function Outgoing(codec: Codec, s: Core, c: ConnId, payload: Bytes, b: ConnId): seq<Bytes>
    requires c in s.conns && b in s.conns
  {
    var out :=
      if TargetOf(codec, s.registry, payload) == Some(b) then
        Some(ForwardMessage(codec, s.conns[c].deviceId, DataOf(payload)))
      else if b == c then Reply(codec, s, c, payload)
      else None;
    if out.Some? && s.conns[b].open && Sendable(out.value) then [out.value] else []
  }

  /** All messages that connection b is sent in a run. */
  function Sent(codec: Codec, es: seq<Event>, b: ConnId): seq<Bytes> {
    if es == [] then []
    else
      var init, last := es[..|es| - 1], es[|es| - 1];
      var s := After(codec, init);
      Sent(codec, init, b) +
        if last.Hears? && last.c in s.conns && b in s.conns then Outgoing(codec, s, last.c, last.payload, b) else []
  }

  /** The data message is for the device that is registered for connection b at the time, and b can be written to. */
  predicate IsFor(codec: Codec, s: Core, e: Event, b: ConnId) {
    && e.Hears? && e.c in s.conns && b in s.conns && s.conns[b].open
    && TargetOf(codec, s.registry, e.payload) == Some(b)
    && Sendable(ForwardMessage(codec, s.conns[e.c].deviceId, DataOf(e.payload)))
  }

  /** The data addressed to connection b in a run, in order. */
  function Addressed(codec: Codec, es: seq<Event>, b: ConnId): seq<Bytes> {
    if es == [] then []
    else
      var init, last := es[..|es| - 1], es[|es| - 1];
      Addressed(codec, init, b) + if IsFor(codec, After(codec, init), last, b) then [DataOf(last.payload)] else []
  }

  // ----- What is written

  lemma OneWire(payload: Bytes)
    requires Sendable(payload)
    ensures AllSendable([payload]) && Wire([payload]) == Frame(payload)
  {
    var one: seq<Bytes> := [payload];
    assert one[1..] == [] && Wire([]) == [];
    Parts(Frame(payload), []);
  }

  lemma {:induction false} WireAppend(a: seq<Bytes>, b: seq<Bytes>)
    requires AllSendable(a) && AllSendable(b)
    ensures AllSendable(a + b) && Wire(a + b) == Wire(a) + Wire(b)
  {
    if a == [] {
      Parts(a, b);
    } else {
      assert forall p | p in a[1..] :: p in a;
      WireAppend(a[1..], b);
      Parts(a, b);
      assert a[0] in a && (a + b)[1..] == a[1..] + b;
      Assoc(Frame(a[0]), Wire(a[1..]), Wire(b));
    }
  }

  lemma OutgoingSendable(codec: Codec, s: Core, c: ConnId, payload: Bytes, b: ConnId)
    requires c in s.conns && b in s.conns
    ensures AllSendable(Outgoing(codec, s, c, payload, b))
  {
    hide Reply; hide TargetOf; hide ForwardMessage; hide DataOf;
  }

  /** A message writes to each connection exactly what it is sent. */
  lemma MessageWrites(codec: Codec, s: Core, c: ConnId, payload: Bytes, now: real, b: ConnId)
    requires c in s.conns && b in s.conns
    ensures var after, out := HandleMessage(codec, s, c, payload, now).conns, Outgoing(codec, s, c, payload, b);
      AllSendable(out) && b in after && after[b].written == s.conns[b].written + Wire(out)
  {
    OutgoingSendable(codec, s, c, payload, b);
    var out := Outgoing(codec, s, c, payload, b);
    if out != [] { OneWire(out[0]); }
    assert Wire([]) == [];
    Parts(s.conns[b].written, []);
    hide Wire; hide ToHex; hide IndexOfByte; hide Message; hide Frame; hide Sendable; hide AllSendable;
  }

  // One event.
  lemma EventWrites(codec: Codec, s: Core, e: Event, b: ConnId)
    requires b in s.conns
    ensures var after := Happen(codec, s, e).conns;
      var out := if e.Hears? && e.c in s.conns then Outgoing(codec, s, e.c, e.payload, b) else [];
      AllSendable(out) && b in after && after[b].written == s.conns[b].written + Wire(out)
  {
    if e.Hears? && e.c in s.conns {
      MessageWrites(codec, s, e.c, e.payload, e.now, b);
    } else {
      assert Wire([]) == [];
      Parts(s.conns[b].written, []);
    }
    hide HandleMessage; hide Outgoing; hide Wire;
  }

  lemma NewConnection(codec: Codec, s: Core, e: Event, b: ConnId)
    requires b !in s.conns
    ensures b in Happen(codec, s, e).conns ==> e == Opened(b) && Happen(codec, s, e).conns[b].written == []
  {
    if e.Hears? && e.c in s.conns {
      HandleKeysKept(codec, s, e.c, e.payload, e.now);
    }
    hide HandleMessage;
  }

  /** Over every run the bytes written to a connection are the frames of the messages that it is sent, in order. */
  lemma {:induction false} WrittenIsSent(codec: Codec, es: seq<Event>, b: ConnId)
    ensures AllSendable(Sent(codec, es, b))
    ensures b in After(codec, es).conns ==> After(codec, es).conns[b].written == Wire(Sent(codec, es, b))
    ensures b !in After(codec, es).conns ==> Sent(codec, es, b) == []
  {
    hide Happen; hide Outgoing; hide Wire; hide Sendable;
    if es == [] {
      assert Sent(codec, es, b) == [];
    } else {
      var init, last := es[..|es| - 1], es[|es| - 1];
      var s, sent := After(codec, init), Sent(codec, init, b);
      WrittenIsSent(codec, init, b);
      if b in s.conns {
        EventWrites(codec, s, last, b);
        var out := if last.Hears? && last.c in s.conns then Outgoing(codec, s, last.c, last.payload, b) else [];
        WireAppend(sent, out);
      } else {
        NewConnection(codec, s, last, b);
        NoWire();
        Parts(sent, []);
      }
    }
  }

  lemma NoWire()
    ensures Wire([]) == []
  {
  }

  // ----- What is handed on

  // The forwarded JSON is read back.
  ghost predicate ReadsBack(codec: Codec) {
    forall from, data: Bytes :: codec.readForward(codec.forward(from, ToHex(data))) == Some(ToHex(data))
  }

  lemma ReplyIsNoData(codec: Codec, s: Core, c: ConnId, payload: Bytes)
    requires c in s.conns && Reply(codec, s, c, payload).Some?
    ensures RelayedBytes(codec, Reply(codec, s, c, payload).value) == None
  {
    MessageParts(PONG, []);
    MessageParts(HEARTBEAT_ACK, codec.heartbeatAck);
    if ConnectIn(codec, payload).Some? {
      var m := ConnectIn(codec, payload).value;
      MessageParts(CONNECT_ACK, codec.connectAck(Stored(s.registry, m.token) == m.sessionId, m));
    }
    hide Message; hide FromHex;
  }

  lemma OutgoingIsAddressed(codec: Codec, s: Core, e: Event, b: ConnId)
    requires ReadsBack(codec) && e.Hears? && e.c in s.conns && b in s.conns
    ensures Relayed(codec, Outgoing(codec, s, e.c, e.payload, b)) == if IsFor(codec, s, e, b) then [DataOf(e.payload)] else []
  {
    hide RelayedBytes; hide Reply; hide TargetOf; hide Relayed;
    var out := Outgoing(codec, s, e.c, e.payload, b);
    NothingRelayed(codec);
    if out != [] {
      RelayedOne(codec, out[0]);
      if TargetOf(codec, s.registry, e.payload) == Some(b) {
        ClientReads(codec, s.conns[e.c].deviceId, DataOf(e.payload));
      } else {
        ReplyIsNoData(codec, s, e.c, e.payload);
      }
    }
  }

  lemma NothingRelayed(codec: Codec)
    ensures Relayed(codec, []) == []
  {
  }

  /** What a client makes of all messages it is sent in a run is the data that was addressed to it. */
  lemma {:induction false} SentIsAddressed(codec: Codec, es: seq<Event>, b: ConnId)
    requires ReadsBack(codec)
    ensures Relayed(codec, Sent(codec, es, b)) == Addressed(codec, es, b)
  {
    hide Outgoing; hide Relayed; hide After; hide ReadsBack;
    NothingRelayed(codec);
    if es != [] {
      var init, last := es[..|es| - 1], es[|es| - 1];
      var s := After(codec, init);
      SentIsAddressed(codec, init, b);
      var out := if last.Hears? && last.c in s.conns && b in s.conns then Outgoing(codec, s, last.c, last.payload, b) else [];
      RelayedAppend(codec, Sent(codec, init, b), out);
      if last.Hears? && last.c in s.conns && b in s.conns {
        OutgoingIsAddressed(codec, s, last, b);
      }
    }
  }

  /**
   * Relayed data arrives over every run of the server, whatever else happens in between and however all streams are cut:
   * what a client has been handed, when it has read some of the bytes written to its connection, is the beginning of
   * what was addressed to the devices registered for the connection at the time, in order, and it is all of it once it
   * has read all bytes.
   */
  lemma RelayedOverRun(codec: Codec, steps: seq<Step>, b: ConnId, read: seq<Bytes>, unread: Bytes)
    requires ReadsBack(codec) && b in Run(codec, steps).core.conns
    requires Run(codec, steps).core.conns[b].written == Concat(read) + unread
    ensures Relayed(codec, Receive(read).payloads) <= Addressed(codec, Events(codec, steps), b)
    ensures unread == [] ==>
      Relayed(codec, Receive(read).payloads) == Addressed(codec, Events(codec, steps), b) && Receive(read).rest == []
  {
    var es := Events(codec, steps);
    var sent := Sent(codec, es, b);
    RunIsAfter(codec, steps);
    WrittenIsSent(codec, es, b);
    SentIsAddressed(codec, es, b);
    ReceiveIsDeframe(read);
    DeframeWire(sent);
    DeframeAppend(Concat(read), unread);
    var first := Deframe(Concat(read));
    var second := Deframe(first.rest + unread);
    RelayedAppend(codec, first.payloads, second.payloads);
    if unread == [] {
      Parts(Concat(read), []);
    }
    hide Run; hide After; hide Events; hide Sent; hide Addressed; hide Deframe; hide Wire; hide Receive; hide Relayed; hide Concat;
  }
}
