/** The daemon's relay client: its read loop, and relayed data end to end. */
module RelayClient {

  import opened Options
  import opened Seqs
  import opened RelayWire
  import opened RelayServer

  // What a read of the socket yields: bytes, a timeout, the end of the stream, or an error.
  datatype Read = Got(data: Bytes) | Timeout | Closed | Broken

  /** The relayed bytes in a message, when it is a data message that can be read. */
  function RelayedBytes(codec: Codec, payload: Bytes): Option<Bytes> {
    if !(MAGIC <= payload) || |payload| == |MAGIC| || payload[|MAGIC|] != DATA then None
    else
      match codec.readForward(payload[|MAGIC| + 1..])
      case None => None
      case Some(hex) => FromHex(hex)
  }

  function Relayed(codec: Codec, payloads: seq<Bytes>): seq<Bytes> {
    if payloads == [] then []
    else
      var r := RelayedBytes(codec, payloads[|payloads| - 1]);
      Relayed(codec, payloads[..|payloads| - 1]) + if r.Some? then [r.value] else []
  }

  function TotalSize(data: seq<Bytes>): nat {
    if data == [] then 0
    else
      var init, last := data[..|data| - 1], data[|data| - 1];
      TotalSize(init) + |last|
  }

  /** The chunks that the loop reads before it stops. */
  function ChunksRead(inputs: seq<Read>): seq<Bytes> {
    if inputs == [] then []
    else
      match inputs[0]
      case Got(data) => if data == [] then [] else [data] + ChunksRead(inputs[1..])
      case Timeout => ChunksRead(inputs[1..])
      case Closed => []
      case Broken => []
  }

  class Client {
    const codec: Codec
    var bytesRx: nat
    // Every relayed payload received so far; the source only counts their bytes.
    ghost var received: seq<Bytes>

    ghost predicate Valid()
      reads this
    {
      bytesRx == TotalSize(received)
    }

    constructor (codec: Codec)
      ensures Valid() && this.codec == codec && received == [] && bytesRx == 0
    {
      this.codec := codec;
      bytesRx := 0;
      received := [];
    }

    method HandleMessage(payload: Bytes)
      requires Valid()
      modifies this
      ensures Valid()
      ensures received == old(received) + Relayed(codec, [payload])
    {
      ghost var one: seq<Bytes> := [payload];
      assert one[..0] == [];
      var data := RelayedBytes(codec, payload);
      if data.Some? {
        bytesRx := bytesRx + |data.value|;
        received := received + [data.value];
        assert received[..|received| - 1] == old(received);
      }
    }

    /** One run of the read loop, on the given inputs. */
    method ReadLoop(inputs: seq<Read>)
      requires Valid()
      modifies this
      ensures Valid()
      ensures received == old(received) + Relayed(codec, Receive(ChunksRead(inputs)).payloads)
    {
      hide Receive; hide ChunksRead; hide Relayed;
      var buffer: Bytes := [];
      ghost var chunks: seq<Bytes> := [];
      var i := 0;
      NothingRead(codec, inputs);
      while i < |inputs|
        invariant i <= |inputs| && Valid()
        invariant ChunksRead(inputs) == chunks + ChunksRead(inputs[i..])
        invariant buffer == Receive(chunks).rest
        invariant received == old(received) + Relayed(codec, Receive(chunks).payloads)
      {
        var read := inputs[i];
        ReadStep(inputs, i, chunks);
        if read == Closed || read == Broken || read == Got([]) {
          return;
        }
        if read.Got? {
          ReceiveStep(codec, chunks, read.data, old(received));
          chunks := chunks + [read.data];
          buffer := buffer + read.data;
          buffer := Drain(buffer);
        }
        i := i + 1;
      }
      ReadEnd(inputs, chunks);
    }

    // The inner loop: handle every whole frame of the buffer and return what is left.
    method Drain(data: Bytes) returns (buffer: Bytes)
      requires Valid()
      modifies this
      ensures Valid()
      ensures buffer == Deframe(data).rest
      ensures received == old(received) + Relayed(codec, Deframe(data).payloads)
    {
      buffer := data;
      ghost var done: seq<Bytes> := [];
      while HasFrame(buffer)
        invariant Valid()
        invariant Deframe(data).rest == Deframe(buffer).rest
        invariant Deframe(data).payloads == done + Deframe(buffer).payloads
        invariant received == old(received) + Relayed(codec, done)
        decreases |buffer|
      {
        var n := FrameEnd(buffer);
        var payload := buffer[HEADER_SIZE..n];
        RelayedAppend(codec, done, [payload]);
        Assoc(done, [payload], Deframe(buffer[n..]).payloads);
        done := done + [payload];
        buffer := buffer[n..];
        HandleMessage(payload);
      }
      assert done + [] == done;
    }
  }

  lemma NothingRead(codec: Codec, inputs: seq<Read>)
    ensures ChunksRead(inputs) == [] + ChunksRead(inputs[0..])
    ensures Receive([]) == Deframed([], []) && Relayed(codec, []) == []
  {
    assert inputs[0..] == inputs;
  }

  lemma ReadStep(inputs: seq<Read>, i: nat, chunks: seq<Bytes>)
    requires i < |inputs|
    ensures chunks + ChunksRead(inputs[i..]) ==
      match inputs[i]
      case Got(data) => if data == [] then chunks else chunks + [data] + ChunksRead(inputs[i + 1..])
      case Timeout => chunks + ChunksRead(inputs[i + 1..])
      case Closed => chunks
      case Broken => chunks
  {
    assert inputs[i..][0] == inputs[i] && inputs[i..][1..] == inputs[i + 1..];
    Parts(chunks, []);
    if inputs[i].Got? {
      Assoc(chunks, [inputs[i].data], ChunksRead(inputs[i + 1..]));
    }
  }

  lemma ReadEnd(inputs: seq<Read>, chunks: seq<Bytes>)
    ensures chunks + ChunksRead(inputs[|inputs|..]) == chunks
  {
    assert inputs[|inputs|..] == [];
  }

  lemma ReceiveStep(codec: Codec, chunks: seq<Bytes>, data: Bytes, before: seq<Bytes>)
    ensures var r, d := Receive(chunks), Deframe(Receive(chunks).rest + data);
      && Receive(chunks + [data]).rest == d.rest
      && before + Relayed(codec, Receive(chunks + [data]).payloads) ==
         before + Relayed(codec, r.payloads) + Relayed(codec, d.payloads)
  {
    var r, d := Receive(chunks), Deframe(Receive(chunks).rest + data);
    assert (chunks + [data])[..|chunks|] == chunks;
    RelayedAppend(codec, r.payloads, d.payloads);
    Assoc(before, Relayed(codec, r.payloads), Relayed(codec, d.payloads));
  }

  lemma {:induction false} RelayedAppend(codec: Codec, a: seq<Bytes>, b: seq<Bytes>)
    ensures Relayed(codec, a + b) == Relayed(codec, a) + Relayed(codec, b)
  {
    if b == [] {
      assert a + b == a;
    } else {
      var init := b[..|b| - 1];
      RelayedAppend(codec, a, init);
      assert (a + b)[..|a + b| - 1] == a + init;
    }
  }

  // ----- End to end

  /** The message with which a device relays data to the device whose encoded id is target. */
  function RelayMessage(target: Bytes, data: Bytes): Bytes {
    Message(DATA, target + [BAR] + data)
  }

  lemma MessageParts(msgType: Byte, body: Bytes)
    ensures var p := Message(msgType, body);
      MAGIC <= p && |p| == |MAGIC| + 1 + |body| && p[|MAGIC|] == msgType && p[|MAGIC| + 1..] == body
  {
  }

  lemma {:induction false} BarAt(target: Bytes, data: Bytes)
    requires BAR !in target
    ensures var body := target + [BAR] + data;
      IndexOfByte(body, BAR) == |target| && body[..|target|] == target && body[|target| + 1..] == data
  {
    var body := target + [BAR] + data;
    assert body[|target|] == BAR;
    if target != [] {
      assert body[1..] == target[1..] + [BAR] + data;
      BarAt(target[1..], data);
    }
  }

  /**
   * The server's leg: the forwarded message is written, whole and once, to the target's connection, and nothing else
   * changes.
   */
  lemma ServerForwards(codec: Codec, s: Core, a: ConnId, target: Bytes, id: string, data: Bytes, now: real)
    requires a in s.conns && BAR !in target && codec.readText(target) == Some(id)
    requires Text(id) in s.registry.connections
    ensures HandleMessage(codec, s, a, RelayMessage(target, data), now) ==
      Send(s, s.registry.connections[Text(id)], DATA, codec.forward(s.conns[a].deviceId, ToHex(data)))
  {
    MessageParts(DATA, target + [BAR] + data);
    BarAt(target, data);
    hide Send; hide ToHex; hide IndexOfByte; hide Message;
  }

  /** The receiver's leg: the forwarded message yields the relayed bytes. */
  lemma ClientReads(codec: Codec, from: Json, data: Bytes)
    requires codec.readForward(codec.forward(from, ToHex(data))) == Some(ToHex(data))
    ensures RelayedBytes(codec, Message(DATA, codec.forward(from, ToHex(data)))) == Some(data)
  {
    MessageParts(DATA, codec.forward(from, ToHex(data)));
    HexRoundTrip(data);
    hide ToHex; hide FromHex; hide Message;
  }

  // The server after it received the chunks on connection a.
  function ReceivedAll(codec: Codec, s: State, a: ConnId, chunks: seq<Bytes>, now: real): (r: State)
    requires a in s.core.conns && a in s.buffers
    ensures a in r.core.conns && a in r.buffers
  {
    if chunks == [] then s
    else Received(codec, ReceivedAll(codec, s, a, chunks[..|chunks| - 1], now), a, chunks[|chunks| - 1], now)
  }

  lemma {:induction false} HandleAllAppend(codec: Codec, s: Core, c: ConnId, p: seq<Bytes>, q: seq<Bytes>, now: real)
    requires c in s.conns
    ensures HandleAll(codec, s, c, p + q, now) == HandleAll(codec, HandleAll(codec, s, c, p, now), c, q, now)
    decreases |p|
  {
    hide HandleMessage;
    Parts(p, q);
    if p != [] {
      HandleKeysKept(codec, s, c, p[0], now);
      HandleAllAppend(codec, HandleMessage(codec, s, c, p[0], now), c, p[1..], q, now);
    }
  }

  /** Receiving chunks one by one is handling the frames of the whole stream. */
  lemma {:induction false} ReceivedAllIsReceive(codec: Codec, s: State, a: ConnId, chunks: seq<Bytes>, now: real)
    requires a in s.core.conns && a in s.buffers && s.buffers[a] == []
    ensures ReceivedAll(codec, s, a, chunks, now) ==
      State(HandleAll(codec, s.core, a, Receive(chunks).payloads, now), s.buffers[a := Receive(chunks).rest])
  {
    if chunks == [] {
      assert s.buffers[a := []] == s.buffers;
    } else {
      var init, last := chunks[..|chunks| - 1], chunks[|chunks| - 1];
      ReceivedAllIsReceive(codec, s, a, init, now);
      var before := Receive(init);
      HandleAllAppend(codec, s.core, a, before.payloads, Deframe(before.rest + last).payloads, now);
    }
  }

  // What the server writes to the target for data that device from relays.
  function ForwardMessage(codec: Codec, from: Json, data: Bytes): Bytes {
    Message(DATA, codec.forward(from, ToHex(data)))
  }

  /** To the server, in any chunks: the forwarded message is framed to the target's connection and nothing else changes. */
  lemma ServerLeg(
    codec: Codec, s: State, a: ConnId, target: Bytes, id: string, data: Bytes, now: real, sent: seq<Bytes>)
    requires a in s.core.conns && a in s.buffers && s.buffers[a] == []
    requires BAR !in target && codec.readText(target) == Some(id) && Text(id) in s.core.registry.connections
    requires Sendable(RelayMessage(target, data)) && Concat(sent) == Frame(RelayMessage(target, data))
    ensures ReceivedAll(codec, s, a, sent, now) ==
      s.(core := Send(s.core, s.core.registry.connections[Text(id)], DATA, codec.forward(s.core.conns[a].deviceId, ToHex(data))))
  {
    hide HandleMessage; hide HandleAll; hide Message; hide Frame; hide ToHex; hide Receive; hide Concat;
    hide ReceivedAll; hide RelayMessage; hide Sendable; hide Send;
    var m := RelayMessage(target, data);
    OneFrame(m, sent);
    ReceivedAllIsReceive(codec, s, a, sent, now);
    HandleOne(codec, s.core, a, m, now);
    ServerForwards(codec, s.core, a, target, id, data, now);
    assert s.buffers[a := []] == s.buffers;
  }

  /** To the target, in any chunks: the framed forward message yields exactly the data. */
  lemma ClientLeg(codec: Codec, from: Json, data: Bytes, read: seq<Bytes>)
    requires codec.readForward(codec.forward(from, ToHex(data))) == Some(ToHex(data))
    requires Sendable(ForwardMessage(codec, from, data)) && Concat(read) == Frame(ForwardMessage(codec, from, data))
    ensures Relayed(codec, Receive(read).payloads) == [data] && Receive(read).rest == []
  {
    hide Message; hide Frame; hide ToHex; hide Receive; hide Concat; hide RelayedBytes; hide Relayed; hide Sendable;
    OneFrame(ForwardMessage(codec, from, data), read);
    ClientReads(codec, from, data);
    RelayedOne(codec, ForwardMessage(codec, from, data));
  }

  /**
   * Relayed data arrives intact. A device sends data for a registered, open target, in any chunks; what the server
   * then writes to the target's connection, read back in any chunks, is handed to the target as exactly that data.
   */
  lemma RelayedDataArrives(
    codec: Codec, s: State, a: ConnId, target: Bytes, id: string, data: Bytes, now: real,
    sent: seq<Bytes>, read: seq<Bytes>)
    requires a in s.core.conns && a in s.buffers && s.buffers[a] == []
    requires BAR !in target && codec.readText(target) == Some(id) && Text(id) in s.core.registry.connections
    requires s.core.registry.connections[Text(id)] in s.core.conns
    requires s.core.conns[s.core.registry.connections[Text(id)]].open
    requires Sendable(RelayMessage(target, data)) && Concat(sent) == Frame(RelayMessage(target, data))
    requires var from := s.core.conns[a].deviceId;
      && codec.readForward(codec.forward(from, ToHex(data))) == Some(ToHex(data))
      && Sendable(ForwardMessage(codec, from, data)) && Concat(read) == Frame(ForwardMessage(codec, from, data))
    ensures var b := s.core.registry.connections[Text(id)];
      ReceivedAll(codec, s, a, sent, now) ==
        s.(core := s.core.(conns := s.core.conns[b := s.core.conns[b].(written := s.core.conns[b].written + Concat(read))]))
    ensures Relayed(codec, Receive(read).payloads) == [data] && Receive(read).rest == []
  {
    ServerLeg(codec, s, a, target, id, data, now, sent);
    ClientLeg(codec, s.core.conns[a].deviceId, data, read);
    hide Message; hide Frame; hide ToHex; hide Receive; hide Concat; hide Relayed; hide ReceivedAll; hide RelayMessage;
    hide Sendable;
  }

  lemma HandleOne(codec: Codec, s: Core, a: ConnId, payload: Bytes, now: real)
    requires a in s.conns
    ensures HandleAll(codec, s, a, [payload], now) == HandleMessage(codec, s, a, payload, now)
  {
    HandleKeysKept(codec, s, a, payload, now);
    hide HandleMessage;
    var one: seq<Bytes> := [payload];
    assert one[1..] == [];
  }

  lemma RelayedOne(codec: Codec, payload: Bytes)
    ensures Relayed(codec, [payload]) == if RelayedBytes(codec, payload).Some? then [RelayedBytes(codec, payload).value] else []
  {
    hide RelayedBytes;
    var one: seq<Bytes> := [payload];
    assert one[..0] == [];
  }

  lemma OneFrame(payload: Bytes, chunks: seq<Bytes>)
    requires Sendable(payload) && Concat(chunks) == Frame(payload)
    ensures Receive(chunks) == Deframed([payload], [])
  {
    assert Wire([payload]) == Frame(payload) + Wire([]);
    Parts(Frame(payload), []);
    FramingIsChunkingIndependent([payload], chunks);
  }
}
