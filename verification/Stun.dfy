/** The STUN binding exchange (RFC 5389): the server's response and the client's attribute walk. */
module Bits {

  import opened Address

  /** Exclusive or of two natural numbers, bit by bit. */
  function Xor(a: nat, b: nat): nat
    decreases a + b
  {
    if a == 0 && b == 0 then 0 else 2 * Xor(a / 2, b / 2) + (a + b) % 2
  }

  lemma XorUnfold(a: nat, b: nat)
    ensures Xor(a, b) == 2 * Xor(a / 2, b / 2) + (a + b) % 2
  {
  }

  lemma Parity(a: nat, b: nat, h: nat)
    ensures (2 * h + (a + b) % 2 + b) % 2 == a % 2
  {
  }

  lemma {:induction false} XorTwice(a: nat, b: nat)
    ensures Xor(Xor(a, b), b) == a
    decreases a + b
  {
    if a != 0 || b != 0 {
      XorTwice(a / 2, b / 2);
      var x, h := Xor(a, b), Xor(a / 2, b / 2);
      XorUnfold(a, b);
      XorUnfold(x, b);
      hide Xor;
      assert x / 2 == h;
      Parity(a, b, h);
    }
  }

  lemma {:induction false} XorBound(a: nat, b: nat, n: nat)
    requires a < Pow2(n) && b < Pow2(n)
    ensures Xor(a, b) < Pow2(n)
  {
    if n > 0 {
      XorBound(a / 2, b / 2, n - 1);
    }
  }
}

module Stun {

  import opened Seqs
  import opened Address
  import opened Bits
  import opened RelayWire

  const MAGIC_COOKIE := 0x2112A442
  const COOKIE_TOP := 0x2112    // MAGIC_COOKIE >> 16
  const BINDING_REQUEST := 0x0001
  const BINDING_RESPONSE := 0x0101
  const XOR_MAPPED_ADDRESS := 0x0020
  const STUN_HEADER := 20

  type Port = n: nat | n < 0x1_0000

  function Pack16(n: Port): (r: Bytes)
    ensures |r| == 2
  {
    var hi: nat, lo: nat := n / 256, n % 256;
    [hi, lo]
  }

  function U16(data: Bytes, i: nat): Port
    requires i + 2 <= |data|
  {
    var hi: nat, lo: nat := data[i], data[i + 1];
    256 * hi + lo
  }

  function U32(data: Bytes, i: nat): (n: nat)
    requires i + 4 <= |data|
    ensures n < MAX_LENGTH
  {
    PackUnpack(data[i..i + 4]);
    Unpack(data[i..i + 4])
  }

  // ----- The client's request

  function Request(tid: Bytes): Bytes {
    Pack16(BINDING_REQUEST) + Pack16(0) + Pack(MAGIC_COOKIE) + tid
  }

  // ----- The server

  // The source address of a datagram: IPv4, IPv6, or a text that is no address.
  datatype Source = V4(ip: Ip, port: Port) | V6(port: Port) | NoIp(port: Port)

  // StructError stands for an exception raised by struct.
  datatype Built = Response(data: Bytes) | NoResponse | PackError

  function XoredPort(port: Port): (r: Port) {
    Pow2Of32();
    XorBound(port, COOKIE_TOP, 16);
    Xor(port, COOKIE_TOP)
  }

  function XoredIp(ip: Ip): (r: Ip) {
    Pow2Of32();
    XorBound(ip, MAGIC_COOKIE, 32);
    Xor(ip, MAGIC_COOKIE)
  }

  // The value of XOR-MAPPED-ADDRESS for IPv4 (section 15.2 of RFC 5389).
  function AddressValue(ip: Ip, port: Port): (r: Bytes)
    ensures |r| == 8
  {
    [0, 1] + Pack16(XoredPort(port)) + Pack(XoredIp(ip))
  }

  // A response header with the given length field (section 6 of RFC 5389).
  function Header(length: Port, tid: Bytes): Bytes {
    Pack16(BINDING_RESPONSE) + Pack16(length) + Pack(MAGIC_COOKIE) + tid
  }

  function AddressAttribute(ip: Ip, port: Port): Bytes {
    Pack16(XOR_MAPPED_ADDRESS) + Pack16(8) + AddressValue(ip, port)
  }

  /** The response; its length field holds 8, the length of the attribute's value alone. */
  function BuildResponse(request: Bytes, src: Source): Built {
    if |request| < STUN_HEADER then NoResponse
    else if U32(request, 4) != MAGIC_COOKIE || U16(request, 0) != BINDING_REQUEST then NoResponse
    else
      match src
      case NoIp(_) => NoResponse
      case V6(_) => PackError
      case V4(ip, port) => Response(Header(8, request[8..20]) + AddressAttribute(ip, port))
  }

  // ----- The client's parser

  datatype Parsed = Found4(ip: Ip, port: Port) | Found6(words: seq<nat>, port: Port) | NotFound | UnpackError

  datatype Looked = Answer(result: Parsed) | Skip(next: nat)

  /** One attribute: an answer, or the offset of the next one. Values are padded to an even length. */
  function LookAt(data: Bytes, offset: nat): (r: Looked)
    ensures r.Skip? ==> r.next >= offset + 4
  {
    if offset + 4 > |data| then Answer(UnpackError)
    else
      var kind, length, v := U16(data, offset), U16(data, offset + 2), offset + 4;
      var next := v + length + length % 2;
      if kind == XOR_MAPPED_ADDRESS && length >= 8 then
        if v + 4 > |data| then Answer(UnpackError)
        else
          var port := XoredPort(U16(data, v + 2));
          if data[v + 1] == 1 then
            if v + 8 > |data| then Answer(UnpackError) else Answer(Found4(XoredIp(U32(data, v + 4)), port))
          else if data[v + 1] == 2 && length >= 20 then
            if v + 20 > |data| then Answer(UnpackError)
            else
              Answer(Found6(
                [XoredIp(U32(data, v + 4)), XoredIp(U32(data, v + 8)), XoredIp(U32(data, v + 12)), XoredIp(U32(data, v + 16))],
                port))
          else Skip(next)
      else Skip(next)
  }

  function Walk(data: Bytes, offset: nat, end: nat): Parsed
    decreases end - offset
  {
    if offset + 4 > end then NotFound
    else
      match LookAt(data, offset)
      case Answer(r) => r
      case Skip(next) => Walk(data, next, end)
  }

  predicate AcceptsHeader(data: Bytes, tid: Bytes) {
    && |data| >= STUN_HEADER
    && U32(data, 4) == MAGIC_COOKIE && U16(data, 0) == BINDING_RESPONSE && data[8..20] == tid
  }

  function Parse(data: Bytes, tid: Bytes): Parsed {
    if !AcceptsHeader(data, tid) then NotFound
    else Walk(data, STUN_HEADER, STUN_HEADER + U16(data, 2))
  }

  method ParseBindingResponse(data: Bytes, tid: Bytes) returns (r: Parsed)
    ensures r == Parse(data, tid)
  {
    if !AcceptsHeader(data, tid) {
      return NotFound;
    }
    var offset := STUN_HEADER;
    var end := offset + U16(data, 2);
    while offset + 4 <= end
      invariant Walk(data, offset, end) == Parse(data, tid)
      decreases end - offset
    {
      var look := LookAt(data, offset);
      if look.Answer? {
        return look.result;
      }
      offset := look.next;
    }
    r := NotFound;
  }

  // ----- Responses with other attributes before the address

  datatype Attribute = Attribute(kind: Port, value: Bytes)

  predicate Encodable(a: Attribute) {
    a.kind != XOR_MAPPED_ADDRESS && |a.value| < 0x1_0000
  }

  function Zeros(n: nat): (r: Bytes)
    ensures |r| == n && forall i | 0 <= i < n :: r[i] == 0
  {
    seq(n, _ => 0)
  }

  // The padding to a multiple of 4 (section 15 of RFC 5389).
  function Padding(n: nat): (p: nat)
    ensures p < 4 && (n + p) % 4 == 0
  {
    if n % 4 == 0 then 0 else 4 - n % 4
  }

  function EncodeAttribute(a: Attribute): Bytes
    requires Encodable(a)
  {
    Pack16(a.kind) + Pack16(|a.value|) + a.value + Zeros(Padding(|a.value|))
  }

  function EncodeAll(attrs: seq<Attribute>): Bytes
    requires forall a | a in attrs :: Encodable(a)
  {
    if attrs == [] then [] else EncodeAttribute(attrs[0]) + EncodeAll(attrs[1..])
  }

  /** A response whose length field is length and that holds attrs before the address. */
  function FullResponse(length: Port, tid: Bytes, attrs: seq<Attribute>, ip: Ip, port: Port): Bytes
    requires forall a | a in attrs :: Encodable(a)
  {
    Header(length, tid) + (EncodeAll(attrs) + AddressAttribute(ip, port))
  }

  /** Whether the client's even padding ends where the standard's padding to 4 ends. */
  predicate Aligned(a: Attribute) {
    |a.value| % 4 == 0 || |a.value| % 4 == 3
  }

  lemma AlignedIff(n: nat)
    ensures n % 2 == Padding(n) <==> n % 4 == 0 || n % 4 == 3
  {
    var half, odd := 2 * (n / 4) + (if n % 4 >= 2 then 1 else 0), if n % 4 == 1 || n % 4 == 3 then 1 else 0;
    DivUnique(n, 2, half, odd);
  }

  // ----- Proofs

  lemma U16At(a: Bytes, n: Port, b: Bytes)
    ensures U16(a + Pack16(n) + b, |a|) == n
  {
    var s := a + Pack16(n) + b;
    assert s[|a|] == Pack16(n)[0] && s[|a| + 1] == Pack16(n)[1];
  }

  lemma U32At(a: Bytes, n: nat, b: Bytes)
    requires n < MAX_LENGTH
    ensures U32(a + Pack(n) + b, |a|) == n
  {
    var s := a + Pack(n) + b;
    UnpackPack(n);
    assert s[|a|..|a| + 4] == Pack(n);
  }

  lemma XoredTwice(ip: Ip, port: Port)
    ensures XoredIp(XoredIp(ip)) == ip && XoredPort(XoredPort(port)) == port
  {
    XorTwice(ip, MAGIC_COOKIE);
    XorTwice(port, COOKIE_TOP);
  }

  lemma HeaderAccepted(length: Port, tid: Bytes, rest: Bytes)
    requires |tid| == 12
    ensures var data := Header(length, tid) + rest;
      AcceptsHeader(data, tid) && U16(data, 2) == length && |Header(length, tid)| == STUN_HEADER
  {
    var data := Header(length, tid) + rest;
    U16At([], BINDING_RESPONSE, Pack16(length) + Pack(MAGIC_COOKIE) + tid + rest);
    U16At(Pack16(BINDING_RESPONSE), length, Pack(MAGIC_COOKIE) + tid + rest);
    U32At(Pack16(BINDING_RESPONSE) + Pack16(length), MAGIC_COOKIE, tid + rest);
    assert data == [] + Pack16(BINDING_RESPONSE) + (Pack16(length) + Pack(MAGIC_COOKIE) + tid + rest);
    assert data == Pack16(BINDING_RESPONSE) + Pack16(length) + (Pack(MAGIC_COOKIE) + tid + rest);
    assert data == Pack16(BINDING_RESPONSE) + Pack16(length) + Pack(MAGIC_COOKIE) + (tid + rest);
    assert data[8..20] == tid;
  }

  lemma LookAtAddress(a: Bytes, ip: Ip, port: Port)
    ensures LookAt(a + AddressAttribute(ip, port), |a|) == Answer(Found4(ip, port))
  {
    var data := a + AddressAttribute(ip, port);
    var p, q := Pack16(XoredPort(port)), Pack(XoredIp(ip));
    var h, l := Pack16(XOR_MAPPED_ADDRESS), Pack16(8);
    U16At(a, XOR_MAPPED_ADDRESS, l + AddressValue(ip, port));
    U16At(a + h, 8, AddressValue(ip, port));
    U16At(a + h + l + [0, 1], XoredPort(port), q);
    U32At(a + h + l + [0, 1] + p, XoredIp(ip), []);
    assert data == a + h + (l + AddressValue(ip, port));
    assert data == a + h + l + AddressValue(ip, port);
    assert data == a + h + l + [0, 1] + p + q;
    assert data == a + h + l + [0, 1] + p + q + [];
    assert data[|a| + 5] == 1;
    XoredTwice(ip, port);
    hide Pack16; hide Pack; hide XoredIp; hide XoredPort; hide U16; hide U32; hide AddressValue;
  }

  lemma LookAtOther(a: Bytes, attr: Attribute, rest: Bytes)
    requires Encodable(attr)
    ensures LookAt(a + EncodeAttribute(attr) + rest, |a|) == Skip(|a| + 4 + |attr.value| + |attr.value| % 2)
  {
    var data := a + EncodeAttribute(attr) + rest;
    var k, l, v := Pack16(attr.kind), Pack16(|attr.value|), attr.value + Zeros(Padding(|attr.value|)) + rest;
    U16At(a, attr.kind, l + v);
    U16At(a + k, |attr.value|, v);
    assert data == a + k + (l + v);
    assert data == a + k + l + v;
    hide Pack16; hide U16;
  }

  /** Walking over aligned attributes reaches the address when the length field covers its header. */
  lemma {:induction false} WalkOver(a: Bytes, attrs: seq<Attribute>, ip: Ip, port: Port, end: nat)
    requires forall x | x in attrs :: Encodable(x) && Aligned(x)
    ensures Walk(a + (EncodeAll(attrs) + AddressAttribute(ip, port)), |a|, end) ==
      if |a| + |EncodeAll(attrs)| + 4 <= end then Found4(ip, port) else NotFound
    decreases |attrs|
  {
    hide AddressAttribute; hide LookAt; hide EncodeAttribute;
    if attrs == [] {
      Parts([], AddressAttribute(ip, port));
      LookAtAddress(a, ip, port);
    } else {
      var x, rest := attrs[0], EncodeAll(attrs[1..]);
      assert x in attrs;
      var e, t := EncodeAttribute(x), AddressAttribute(ip, port);
      Assoc(e, rest, t);
      Assoc(a, e, rest + t);
      LookAtOther(a, x, rest + t);
      AlignedIff(|x.value|);
      EncodedSize(x);
      if |a| + 4 <= end {
        WalkOver(a + e, attrs[1..], ip, port, end);
      }
    }
  }

  lemma EncodedSize(a: Attribute)
    requires Encodable(a)
    ensures |EncodeAttribute(a)| == 4 + |a.value| + Padding(|a.value|)
  {
  }

  /**
   * A response with any list of other attributes before the address, each of a length that leaves 0 or 3 modulo 4,
   * yields the address exactly when its length field covers the address attribute's header.
   */
  lemma WalkFindsAddress(length: Port, tid: Bytes, attrs: seq<Attribute>, ip: Ip, port: Port)
    requires |tid| == 12 && forall x | x in attrs :: Encodable(x) && Aligned(x)
    ensures Parse(FullResponse(length, tid, attrs, ip, port), tid) ==
      if |EncodeAll(attrs)| + 4 <= length then Found4(ip, port) else NotFound
  {
    HeaderAccepted(length, tid, EncodeAll(attrs) + AddressAttribute(ip, port));
    WalkOver(Header(length, tid), attrs, ip, port, STUN_HEADER + length);
    hide AcceptsHeader; hide Walk;
  }

  /** The exchange: the response to a request, parsed, is the address and port that the server saw. */
  lemma StunRoundTrip(tid: Bytes, ip: Ip, port: Port)
    requires |tid| == 12
    ensures BuildResponse(Request(tid), V4(ip, port)).Response?
    ensures Parse(BuildResponse(Request(tid), V4(ip, port)).data, tid) == Found4(ip, port)
    ensures forall other: Bytes | other != tid ::
      Parse(BuildResponse(Request(tid), V4(ip, port)).data, other) == NotFound
  {
    var r := Request(tid);
    U16At([], BINDING_REQUEST, Pack16(0) + Pack(MAGIC_COOKIE) + tid);
    U32At(Pack16(BINDING_REQUEST) + Pack16(0), MAGIC_COOKIE, tid);
    assert r == [] + Pack16(BINDING_REQUEST) + (Pack16(0) + Pack(MAGIC_COOKIE) + tid);
    assert r[8..20] == tid;
    WalkFindsAddress(8, tid, [], ip, port);
    HeaderAccepted(8, tid, AddressAttribute(ip, port));
    Parts([], AddressAttribute(ip, port));
    hide Pack16; hide Pack; hide AddressAttribute; hide Walk;
  }

  /**
   * One other attribute before the address, padded with zeros and counted as the standard says: the client finds
   * the address if and only if the attribute's length leaves 0 or 3 modulo 4. Otherwise the client, which pads to 2,
   * lands in the padding and reads the address attribute's type as a length.
   */
  lemma OneAttributeIff(tid: Bytes, attr: Attribute, ip: Ip, port: Port)
    requires |tid| == 12 && Encodable(attr) && |EncodeAttribute(attr)| + 12 < 0x1_0000
    ensures Parse(FullResponse(|EncodeAttribute(attr)| + 12, tid, [attr], ip, port), tid) == Found4(ip, port)
       <==> Aligned(attr)
  {
    var length := |EncodeAttribute(attr)| + 12;
    var e, t := EncodeAttribute(attr), AddressAttribute(ip, port);
    assert EncodeAll([attr]) == e + EncodeAll([]);
    Parts(e, []);
    if Aligned(attr) {
      WalkFindsAddress(length, tid, [attr], ip, port);
    } else {
      HeaderAccepted(length, tid, e + t);
      WalkGoesAstray(Header(length, tid), attr, ip, port);
    }
    hide AcceptsHeader; hide Header; hide EncodeAttribute; hide AddressAttribute; hide EncodeAll; hide Walk;
  }

  lemma WalkGoesAstray(h: Bytes, attr: Attribute, ip: Ip, port: Port)
    requires |h| == STUN_HEADER && Encodable(attr) && !Aligned(attr)
    requires |EncodeAttribute(attr)| + 12 < 0x1_0000
    ensures var data := h + (EncodeAttribute(attr) + AddressAttribute(ip, port));
      Walk(data, |h|, STUN_HEADER + |EncodeAttribute(attr)| + 12) == NotFound
  {
    var e, t := EncodeAttribute(attr), AddressAttribute(ip, port);
    EncodedSize(attr);
    LookAtOther(h, attr, t);
    Assoc(h, e, t);
    Misread(h, attr, ip, port);
    hide LookAt; hide EncodeAttribute; hide AddressAttribute;
    var data, end := h + (e + t), STUN_HEADER + |e| + 12;
    var o := |h| + 4 + |attr.value| + |attr.value| % 2;
    assert Walk(data, o + 4 + XOR_MAPPED_ADDRESS, end) == NotFound;
    assert Walk(data, o, end) == NotFound;
    assert Walk(data, |h|, end) == NotFound;
  }

  lemma Misread(h: Bytes, attr: Attribute, ip: Ip, port: Port)
    requires Encodable(attr) && !Aligned(attr)
    ensures var data, o := h + EncodeAttribute(attr) + AddressAttribute(ip, port), |h| + 4 + |attr.value| + |attr.value| % 2;
      && o + 2 == |h| + |EncodeAttribute(attr)|
      && LookAt(data, o) == Skip(o + 4 + XOR_MAPPED_ADDRESS)
  {
    var e, t := EncodeAttribute(attr), AddressAttribute(ip, port);
    var data, o := h + e + t, |h| + 4 + |attr.value| + |attr.value| % 2;
    EncodedSize(attr);
    assert e[|e| - 2] == 0 && e[|e| - 1] == 0;
    assert data[o] == 0 && data[o + 1] == 0 && data[o + 2] == t[0] == 0 && data[o + 3] == t[1] == 0x20;
  }
}
