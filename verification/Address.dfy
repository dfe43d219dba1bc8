/** IPv4 addresses as 32-bit numbers, and CIDR prefixes. */
module Address {

  const ADDRESSES := 0x1_0000_0000

  type Ip = n: nat | n < ADDRESSES

  function Pow2(n: nat): (r: nat)
    ensures r > 0
  {
    if n == 0 then 1 else 2 * Pow2(n - 1)
  }

  datatype RawPrefix = RawPrefix(addr: Ip, len: nat)

  type Prefix = p: RawPrefix | p.len <= 32 witness RawPrefix(0, 0)

  const DEFAULT_ROUTE: Prefix := RawPrefix(0, 0)

  /** The number of addresses that a prefix of this length covers. */
  function Size(p: Prefix): (n: nat)
    ensures n > 0
  {
    Pow2(32 - p.len)
  }

  predicate Contains(p: Prefix, ip: Ip) {
    ip / Size(p) == p.addr / Size(p)
  }

  function HostPrefix(ip: Ip): Prefix {
    RawPrefix(ip, 32)
  }

  ghost predicate Overlaps(p: Prefix, q: Prefix) {
    exists ip: Ip :: Contains(p, ip) && Contains(q, ip)
  }

  lemma {:induction false} Pow2Adds(a: nat, b: nat)
    ensures Pow2(a + b) == Pow2(a) * Pow2(b)
  {
    if a > 0 {
      Pow2Adds(a - 1, b);
    }
  }

  lemma Pow2Of32()
    ensures Pow2(32) == ADDRESSES
    ensures Pow2(8) == 256 && Pow2(16) == 0x1_0000 && Pow2(24) == 0x100_0000
  {
    assert Pow2(4) == 16;
    Pow2Adds(4, 4);
    hide Pow2;
    Pow2Adds(8, 8);
    Pow2Adds(16, 8);
    Pow2Adds(16, 16);
  }

  lemma MultipleBounds(d: nat, k: int)
    requires d > 0
    ensures k >= 1 ==> d * k >= d
    ensures k <= -1 ==> d * k <= 0 - d
  {
    if k >= 1 {
      assert d * k == d + d * (k - 1) && d * (k - 1) >= 0;
    } else if k <= -1 {
      assert d * k == 0 - d + d * (k + 1) && d * (k + 1) <= 0;
    }
  }

  lemma DivUnique(n: nat, d: nat, q: nat, r: nat)
    requires d > 0 && n == d * q + r && r < d
    ensures n / d == q && n % d == r
  {
    var k := n / d - q;
    assert d * (n / d) == d * q + d * k;
    MultipleBounds(d, k);
  }

  lemma Euclid(n: nat, d: nat)
    requires d > 0
    ensures n == d * (n / d) + n % d
  {
  }

  lemma RemainderBound(n: nat, d: nat)
    requires d > 0
    ensures n % d <= n
  {
    if n < d {
      DivUnique(n, d, 0, n);
    }
  }

  lemma HalfOfDiv(n: nat, a: nat)
    requires a > 0
    ensures n / (2 * a) == n / a / 2
  {
    var q := n / a;
    Euclid(n, a);
    if q == 2 * (q / 2) {
      HalfOfQuotient(n, a, q / 2, n % a);
    } else {
      HalfOfQuotient(n, a, q / 2, a + n % a);
    }
  }

  lemma HalfOfQuotient(n: nat, a: nat, h: nat, r: nat)
    requires r < 2 * a && (n == a * (2 * h) + r || n == a * (2 * h + 1) + (r - a))
    ensures n / (2 * a) == h
  {
    assert a * (2 * h) == 2 * a * h;
    assert a * (2 * h + 1) == a * (2 * h) + a;
    DivUnique(n, 2 * a, h, r);
  }

  /** Addresses under a common longer prefix agree above any shorter one. */
  lemma {:induction false} AgreeAbove(x: nat, y: nat, k: nat, m: nat)
    requires k <= m && x / Pow2(k) == y / Pow2(k)
    ensures x / Pow2(m) == y / Pow2(m)
    decreases m - k
  {
    if k < m {
      HalfOfDiv(x, Pow2(k));
      HalfOfDiv(y, Pow2(k));
      AgreeAbove(x, y, k + 1, m);
    }
  }

  lemma HostContainsOnly(ip: Ip, other: Ip)
    ensures Contains(HostPrefix(ip), other) <==> ip == other
  {
  }

  lemma DefaultContainsAll(ip: Ip)
    ensures Contains(DEFAULT_ROUTE, ip)
  {
    Pow2Of32();
  }

  /** A prefix that holds two addresses is shorter than 32. */
  lemma TwoAddresses(p: Prefix, x: Ip, y: Ip)
    requires Contains(p, x) && Contains(p, y) && x != y
    ensures p.len < 32
  {
  }
}
