/** The relay's framing: a 4-byte big-endian length, then the payload; frames are cut out of a byte stream. */
module RelayWire {

  import opened Options
  import opened Seqs

  type Byte = n: nat | n < 256
  type Bytes = seq<Byte>

  const HEADER_SIZE := 4
  const MAX_LENGTH := 0x1_0000_0000

  // "MIDSCALE_RELAY_V1"
  const MAGIC: Bytes := [77, 73, 68, 83, 67, 65, 76, 69, 95, 82, 69, 76, 65, 89, 95, 86, 49]

  const PING: Byte := 1
  const PONG: Byte := 2
  const DATA: Byte := 3
  const CONNECT: Byte := 4
  const CONNECT_ACK: Byte := 5
  const DISCONNECT: Byte := 6
  const HEARTBEAT: Byte := 7
  const HEARTBEAT_ACK: Byte := 8

  // struct.pack("!I", n)
  function Pack(n: nat): (r: Bytes)
    requires n < MAX_LENGTH
    ensures |r| == HEADER_SIZE
  {
    var b0: nat, b1: nat, b2: nat, b3: nat := n / 0x100_0000, n / 0x1_0000 % 256, n / 256 % 256, n % 256;
    [b0, b1, b2, b3]
  }

  // struct.unpack("!I", b)
  function Unpack(b: Bytes): nat
    requires |b| == HEADER_SIZE
  {
    var b0: nat, b1: nat, b2: nat, b3: nat := b[0], b[1], b[2], b[3];
    b0 * 0x100_0000 + b1 * 0x1_0000 + b2 * 256 + b3
  }

  lemma UnpackPack(n: nat)
    requires n < MAX_LENGTH
    ensures Unpack(Pack(n)) == n
  {
    assert n / 256 / 256 == n / 0x1_0000;
    assert n / 0x1_0000 / 256 == n / 0x100_0000;
  }

  lemma PackUnpack(b: Bytes)
    requires |b| == HEADER_SIZE
    ensures Unpack(b) < MAX_LENGTH && Pack(Unpack(b)) == b
  {
    var n := Unpack(b);
    var b0: nat, b1: nat, b2: nat := b[0], b[1], b[2];
    assert n / 256 == b0 * 0x1_0000 + b1 * 256 + b2;
    assert n / 0x1_0000 == b0 * 256 + b1;
    assert n / 0x100_0000 == b0;
  }

  /** The packed bytes, most significant first. */
  lemma PackIs(n: nat, a: Byte, b: Byte, c: Byte, d: Byte)
    requires n == 0x100_0000 * a + 0x1_0000 * b + 0x100 * c + d
    ensures n < MAX_LENGTH && Pack(n) == [a, b, c, d]
  {
    UnpackPack(n);
    PackUnpack([a, b, c, d]);
    hide Pack;
    assert Unpack([a, b, c, d]) == n;
  }

  predicate Sendable(payload: Bytes) {
    |payload| < MAX_LENGTH
  }

  function Frame(payload: Bytes): Bytes
    requires Sendable(payload)
  {
    Pack(|payload|) + payload
  }

  /** The bytes of the message that _send_message writes. */
  function Message(msgType: Byte, body: Bytes): Bytes {
    MAGIC + [msgType] + body
  }

  // Whether buffer begins with a whole frame.
  predicate HasFrame(buffer: Bytes) {
    |buffer| >= HEADER_SIZE && |buffer| >= HEADER_SIZE + Unpack(buffer[..HEADER_SIZE])
  }

  function FrameEnd(buffer: Bytes): (n: nat)
    requires HasFrame(buffer)
    ensures HEADER_SIZE <= n <= |buffer|
  {
    HEADER_SIZE + Unpack(buffer[..HEADER_SIZE])
  }

  datatype Deframed = Deframed(payloads: seq<Bytes>, rest: Bytes)

  /** The payloads that the receive loop hands on, and what it keeps. */
  function Deframe(buffer: Bytes): Deframed
    decreases |buffer|
  {
    if !HasFrame(buffer) then Deframed([], buffer)
    else
      var n := FrameEnd(buffer);
      var d := Deframe(buffer[n..]);
      Deframed([buffer[HEADER_SIZE..n]] + d.payloads, d.rest)
  }

  ghost predicate AllSendable(payloads: seq<Bytes>) {
    forall p | p in payloads :: Sendable(p)
  }

  /** The bytes on the wire for a list of payloads. */
  function Wire(payloads: seq<Bytes>): Bytes
    requires AllSendable(payloads)
  {
    if payloads == [] then [] else Frame(payloads[0]) + Wire(payloads[1..])
  }

  function Concat(chunks: seq<Bytes>): Bytes {
    if chunks == [] then [] else Concat(chunks[..|chunks| - 1]) + chunks[|chunks| - 1]
  }

  /** Payloads handed on, and the buffer, after receiving the chunks one by one. */
  function Receive(chunks: seq<Bytes>): Deframed {
    if chunks == [] then Deframed([], [])
    else
      var before := Receive(chunks[..|chunks| - 1]);
      var d := Deframe(before.rest + chunks[|chunks| - 1]);
      Deframed(before.payloads + d.payloads, d.rest)
  }

  lemma FrameParts(payload: Bytes, more: Bytes)
    requires Sendable(payload)
    ensures var b := Frame(payload) + more;
      && HasFrame(b) && FrameEnd(b) == HEADER_SIZE + |payload|
      && b[HEADER_SIZE..FrameEnd(b)] == payload && b[FrameEnd(b)..] == more
  {
    UnpackPack(|payload|);
    assert (Frame(payload) + more)[..HEADER_SIZE] == Pack(|payload|);
  }

  /** Nothing is lost or invented: the frames handed on, then the buffer, are the bytes received. */
  lemma {:induction false} DeframeConserves(b: Bytes)
    ensures var d := Deframe(b); AllSendable(d.payloads) && b == Wire(d.payloads) + d.rest && !HasFrame(d.rest)
    decreases |b|
  {
    hide Pack; hide Unpack;
    if HasFrame(b) {
      var n := FrameEnd(b);
      DeframeConserves(b[n..]);
      WholeFrame(b);
      var p, d := b[HEADER_SIZE..n], Deframe(b[n..]);
      Parts([p], d.payloads);
      Assoc(Frame(p), Wire(d.payloads), d.rest);
    }
  }

  lemma WholeFrame(b: Bytes)
    requires HasFrame(b)
    ensures var n := FrameEnd(b); Sendable(b[HEADER_SIZE..n]) && b == Frame(b[HEADER_SIZE..n]) + b[n..]
  {
    PackUnpack(b[..HEADER_SIZE]);
  }

  /** Receiving x and then y is receiving them at once. */
  lemma {:induction false} DeframeAppend(x: Bytes, y: Bytes)
    ensures var first := Deframe(x);
      var second := Deframe(first.rest + y);
      Deframe(x + y) == Deframed(first.payloads + second.payloads, second.rest)
    decreases |x|
  {
    if HasFrame(x) {
      var n := FrameEnd(x);
      assert (x + y)[..HEADER_SIZE] == x[..HEADER_SIZE];
      assert (x + y)[n..] == x[n..] + y && (x + y)[HEADER_SIZE..n] == x[HEADER_SIZE..n];
      DeframeAppend(x[n..], y);
      Assoc([x[HEADER_SIZE..n]], Deframe(x[n..]).payloads, Deframe(Deframe(x[n..]).rest + y).payloads);
    }
  }

  lemma {:induction false} DeframeWire(payloads: seq<Bytes>)
    requires AllSendable(payloads)
    ensures Deframe(Wire(payloads)) == Deframed(payloads, [])
  {
    if payloads != [] {
      FrameParts(payloads[0], Wire(payloads[1..]));
      DeframeWire(payloads[1..]);
    }
  }

  /** How a stream is cut into chunks does not matter. */
  lemma {:induction false} ReceiveIsDeframe(chunks: seq<Bytes>)
    ensures Receive(chunks) == Deframe(Concat(chunks))
  {
    if chunks != [] {
      ReceiveIsDeframe(chunks[..|chunks| - 1]);
      DeframeAppend(Concat(chunks[..|chunks| - 1]), chunks[|chunks| - 1]);
    }
  }

  /** Messages arrive whole, in order and once each, however the stream is cut, and nothing is left over. */
  lemma FramingIsChunkingIndependent(payloads: seq<Bytes>, chunks: seq<Bytes>)
    requires AllSendable(payloads) && Concat(chunks) == Wire(payloads)
    ensures Receive(chunks) == Deframed(payloads, [])
  {
    ReceiveIsDeframe(chunks);
    DeframeWire(payloads);
  }

  /** At every moment of any stream the frames handed on and the buffer are what was received, and no frame waits. */
  lemma ReceiveConserves(chunks: seq<Bytes>)
    ensures var d := Receive(chunks);
      AllSendable(d.payloads) && Concat(chunks) == Wire(d.payloads) + d.rest && !HasFrame(d.rest)
  {
    ReceiveIsDeframe(chunks);
    DeframeConserves(Concat(chunks));
  }

  // ----- Hexadecimal

  function HexDigit(n: nat): char
    requires n < 16
  {
    if n < 10 then ('0' as int + n) as char else ('a' as int + n - 10) as char
  }

  function HexValue(c: char): (r: Option<nat>)
    ensures r.Some? ==> r.value < 16
  {
    if '0' <= c <= '9' then Some(c as int - '0' as int)
    else if 'a' <= c <= 'f' then Some(c as int - 'a' as int + 10)
    else if 'A' <= c <= 'F' then Some(c as int - 'A' as int + 10)
    else None
  }

  // bytes.hex()
  function ToHex(b: Bytes): string {
    if b == [] then ""
    else
      var n: nat := b[0];
      [HexDigit(n / 16), HexDigit(n % 16)] + ToHex(b[1..])
  }

  // bytes.fromhex(s), which skips ASCII white space between bytes; None stands for ValueError.
  function FromHex(s: string): Option<Bytes> {
    if s == "" then Some([])
    else if 9 <= s[0] as int <= 13 || s[0] == ' ' then FromHex(s[1..])
    else if |s| < 2 then None
    else
      match (HexValue(s[0]), HexValue(s[1]), FromHex(s[2..]))
      case (Some(hi), Some(lo), Some(more)) => var n: nat := 16 * hi + lo; Some([n] + more)
      case _ => None
  }

  lemma HexDigitRead(n: nat)
    requires n < 16
    ensures var c := HexDigit(n); HexValue(c) == Some(n) && !(9 <= c as int <= 13) && c != ' '
  {
  }

  /** Hexadecimal text is read back as the bytes it was made from. */
  lemma {:induction false} HexRoundTrip(b: Bytes)
    ensures FromHex(ToHex(b)) == Some(b)
  {
    if b != [] {
      HexRoundTrip(b[1..]);
      HexStep(b[0], ToHex(b[1..]));
      hide FromHex;
      assert [b[0]] + b[1..] == b;
    }
  }

  lemma HexStep(n: Byte, rest: string)
    ensures var m: nat := n;
      FromHex([HexDigit(m / 16), HexDigit(m % 16)] + rest) ==
      match FromHex(rest) case None => None case Some(more) => Some([n] + more)
  {
    var m: nat := n;
    var s := [HexDigit(m / 16), HexDigit(m % 16)] + rest;
    HexDigitRead(m / 16);
    HexDigitRead(m % 16);
    assert s[2..] == rest;
    hide HexValue; hide HexDigit;
  }
}
