/** STUN in literal terms: the bytes of both messages, masking bit by bit, and which responses are read. */
module StunMeaning {

  import opened Options
  import opened Seqs
  import opened Address
  import opened Bits
  import opened RelayWire
  import opened Stun

  // ----- Masking

  // Bit i of a number.
  function Bit(n: nat, i: nat): nat {
    n / Pow2(i) % 2
  }

  /** Exclusive or works bit by bit: a bit is set exactly when it is set in one of the two. */
  lemma {:induction false} XorBits(a: nat, b: nat, i: nat)
    ensures Bit(Xor(a, b), i) == if Bit(a, i) == Bit(b, i) then 0 else 1
    decreases i
  {
    XorUnfold(a, b);
    var h := Xor(a / 2, b / 2);
    if i == 0 {
      Low(a, b, h);
    } else {
      XorBits(a / 2, b / 2, i - 1);
      assert Pow2(i) == 2 * Pow2(i - 1);
      Halves(a, Pow2(i - 1));
      Halves(b, Pow2(i - 1));
      Halves(Xor(a, b), Pow2(i - 1));
      XorHalf(a, b);
    }
  }

  lemma Low(a: nat, b: nat, h: nat)
    ensures (2 * h + (a + b) % 2) % 2 == if a % 2 == b % 2 then 0 else 1
    ensures Pow2(0) == 1
  {
    Parity(a, b, h);
  }

  lemma Halves(n: nat, a: nat)
    requires a > 0
    ensures n / (2 * a) == n / 2 / a
  {
    var h, r := n / 2, n % 2;
    var q, s := h / a, h % a;
    Euclid(h, a);
    assert n == 2 * (a * q + s) + r && 2 * (a * q) == (2 * a) * q;
    DivUnique(n, 2 * a, q, 2 * s + r);
  }

  lemma XorHalf(a: nat, b: nat)
    ensures Xor(a, b) / 2 == Xor(a / 2, b / 2)
  {
    XorUnfold(a, b);
  }

  /** Port and address are masked with the high half of the cookie 0x2112A442, and with all of it. */
  lemma MaskedBits(ip: Ip, port: Port, i: nat)
    ensures Bit(XoredPort(port), i) == if Bit(port, i) == Bit(0x2112, i) then 0 else 1
    ensures Bit(XoredIp(ip), i) == if Bit(ip, i) == Bit(0x2112A442, i) then 0 else 1
  {
    XorBits(port, 0x2112, i);
    XorBits(ip, 0x2112A442, i);
  }

  // ----- Bytes

  /** Two bytes and four bytes, most significant first. */
  lemma BigEndian(a: Byte, b: Byte, c: Byte, d: Byte)
    ensures 0x100 * a + b < 0x1_0000 && Pack16(0x100 * a + b) == [a, b]
    ensures Pack(0x100_0000 * a + 0x1_0000 * b + 0x100 * c + d) == [a, b, c, d]
    ensures U16([a, b], 0) == 0x100 * a + b && U32([a, b, c, d], 0) == 0x100_0000 * a + 0x1_0000 * b + 0x100 * c + d
  {
    var n := 0x100_0000 * a + 0x1_0000 * b + 0x100 * c + d;
    PackIs(n, a, b, c, d);
    UnpackPack(n);
    hide Pack; hide Unpack;
    assert [a, b, c, d][0..4] == [a, b, c, d];
  }

  /** The client's request. */
  lemma RequestIs(tid: Bytes)
    ensures Request(tid) == [0, 1, 0, 0, 0x21, 0x12, 0xA4, 0x42] + tid
  {
    BigEndian(0, 1, 0, 0);
    BigEndian(0, 0, 0, 0);
    BigEndian(0x21, 0x12, 0xA4, 0x42);
  }

  /** The server's answer to a request: only a binding request with the cookie is answered, and only to IPv4. */
  lemma ResponseIs(request: Bytes, ip: Ip, port: Port)
    requires |request| >= 20
    ensures request[..2] == [0, 1] && request[4..8] == [0x21, 0x12, 0xA4, 0x42] ==>
      && BuildResponse(request, V4(ip, port)) == Response(
           [1, 1, 0, 8, 0x21, 0x12, 0xA4, 0x42] + request[8..20]
           + [0, 0x20, 0, 8, 0, 1] + Pack16(XoredPort(port)) + Pack(XoredIp(ip)))
      && BuildResponse(request, V6(port)) == PackError && BuildResponse(request, NoIp(port)) == NoResponse
    ensures !(request[..2] == [0, 1] && request[4..8] == [0x21, 0x12, 0xA4, 0x42]) ==>
      BuildResponse(request, V4(ip, port)) == NoResponse
  {
    BigEndian(1, 1, 0, 0);
    BigEndian(0, 8, 0, 0);
    BigEndian(0, 0x20, 0, 0);
    BigEndian(0x21, 0x12, 0xA4, 0x42);
    TypeIs(request, 0, 1);
    CookieIs(request);
    hide Pack16; hide Pack; hide U16; hide U32; hide XoredPort; hide XoredIp;
    var head, tid := [1, 1] + [0, 8] + [0x21, 0x12, 0xA4, 0x42], request[8..20];
    assert head == [1, 1, 0, 8, 0x21, 0x12, 0xA4, 0x42];
    var a, p, q := [0, 0x20] + [0, 8], Pack16(XoredPort(port)), Pack(XoredIp(ip));
    assert head + tid + (a + ([0, 1] + p + q)) == head + tid + [0, 0x20, 0, 8, 0, 1] + p + q;
  }

  lemma TypeIs(data: Bytes, a: Byte, b: Byte)
    requires |data| >= 20
    ensures U16(data, 0) == 0x100 * a + b <==> data[..2] == [a, b]
  {
    var x: nat, y: nat := data[0], data[1];
    assert data[..2] == [data[0], data[1]];
  }

  lemma CookieIs(data: Bytes)
    requires |data| >= 20
    ensures U32(data, 4) == 0x2112A442 <==> data[4..8] == [0x21, 0x12, 0xA4, 0x42]
  {
    BigEndian(0x21, 0x12, 0xA4, 0x42);
    var four := data[4..8];
    PackUnpack(four);
    hide Pack; hide Unpack;
  }

  // ----- Reading

  /** What is not a binding response with the cookie and the transaction is not read. */
  lemma OthersAreIgnored(data: Bytes, tid: Bytes)
    requires |data| < 20 || data[..2] != [1, 1] || data[4..8] != [0x21, 0x12, 0xA4, 0x42] || data[8..20] != tid
    ensures Parse(data, tid) == NotFound
  {
    if |data| >= 20 {
      TypeIs(data, 1, 1);
      CookieIs(data);
    }
    hide U16; hide U32; hide Walk;
  }

  /** One attribute: only type 0x0020 with at least 8 bytes is looked into, and its family decides. */
  lemma AttributeIs(data: Bytes, offset: nat)
    requires offset + 4 <= |data|
    ensures var kind, length := U16(data, offset), U16(data, offset + 2);
      var v, family := offset + 4, if offset + 5 < |data| then data[offset + 5] else 0;
      var after := if length % 2 == 0 then v + length else v + length + 1;
      && (kind != 0x20 || length < 8 ==> LookAt(data, offset) == Skip(after))
      && (kind == 0x20 && length >= 8 && v + 4 <= |data| && family != 1 && !(family == 2 && length >= 20) ==>
            LookAt(data, offset) == Skip(after))
      && (kind == 0x20 && length >= 8 && v + 4 <= |data| && family == 1 ==>
            LookAt(data, offset) ==
            Answer(if v + 8 <= |data| then Found4(XoredIp(U32(data, v + 4)), XoredPort(U16(data, v + 2))) else UnpackError))
      && (kind == 0x20 && length >= 20 && v + 4 <= |data| && family == 2 ==>
            LookAt(data, offset) ==
            Answer(
              if v + 20 <= |data| then
                Found6(
                  [XoredIp(U32(data, v + 4)), XoredIp(U32(data, v + 8)), XoredIp(U32(data, v + 12)), XoredIp(U32(data, v + 16))],
                  XoredPort(U16(data, v + 2)))
              else UnpackError))
      && (kind == 0x20 && length >= 8 && v + 4 > |data| ==> LookAt(data, offset) == Answer(UnpackError))
  {
    hide U16; hide U32; hide XoredIp; hide XoredPort;
  }

  /** The walk ends without an address when fewer than 4 of the counted bytes are left, and raises when data is short. */
  lemma WalkIs(data: Bytes, offset: nat, end: nat)
    ensures offset + 4 > end ==> Walk(data, offset, end) == NotFound
    ensures offset + 4 <= end && offset + 4 > |data| ==> Walk(data, offset, end) == UnpackError
    ensures offset + 4 <= end && offset + 4 <= |data| ==>
      && (LookAt(data, offset).Answer? ==> Walk(data, offset, end) == LookAt(data, offset).result)
      && (LookAt(data, offset).Skip? ==> Walk(data, offset, end) == Walk(data, LookAt(data, offset).next, end))
  {
    hide U16; hide U32; hide XoredIp; hide XoredPort;
  }

  /** The counted bytes begin after the header and are as many as its length field says. */
  lemma ParseIs(data: Bytes, tid: Bytes)
    requires |data| >= 20 && data[..2] == [1, 1] && data[4..8] == [0x21, 0x12, 0xA4, 0x42] && data[8..20] == tid
    ensures var high: nat, low: nat := data[2], data[3]; Parse(data, tid) == Walk(data, 20, 20 + 256 * high + low)
  {
    TypeIs(data, 1, 1);
    CookieIs(data);
    hide U32; hide Walk;
  }
}
