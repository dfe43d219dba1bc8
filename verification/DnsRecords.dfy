/** Reverse-DNS names and label clean-up. */
module DnsRecords {

  import opened Options
  import opened Text
  import opened Decimal
  import opened Address

  // The octet of an address that has the given number of octets below it.
  function Octet(ip: Ip, below: nat): nat
    requires below <= 3
  {
    ip / Pow2(8 * below) % 256
  }

  function OctetText(ip: Ip, below: nat): string
    requires below <= 3
  {
    NatText(Octet(ip, below))
  }

  // The greatest multiple of d up to n.
  function RoundDown(n: nat, d: nat): (r: nat)
    requires d > 0
    ensures r <= n
  {
    RemainderBound(n, d);
    n - n % d
  }

  function NetworkAddress(p: Prefix): (ip: Ip)
    ensures ip <= p.addr
  {
    RoundDown(p.addr, Size(p))
  }

  const SUFFIX := "in-addr.arpa"

  /** The origin of the reverse zone of a subnet: its leading whole octets, reversed. */
  function ReverseZoneOrigin(p: Prefix): Option<string> {
    var n := NetworkAddress(p);
    if p.len >= 24 then Some(OctetText(n, 1) + "." + OctetText(n, 2) + "." + OctetText(n, 3) + "." + SUFFIX)
    else if p.len >= 16 then Some(OctetText(n, 2) + "." + OctetText(n, 3) + "." + SUFFIX)
    else if p.len >= 8 then Some(OctetText(n, 3) + "." + SUFFIX)
    else None
  }

  function DottedText(ip: Ip): string {
    OctetText(ip, 3) + "." + OctetText(ip, 2) + "." + OctetText(ip, 1) + "." + OctetText(ip, 0)
  }

  function ReverseRecordName(ip: Ip, p: Prefix): string {
    if p.len >= 24 then OctetText(ip, 0)
    else if p.len >= 16 then OctetText(ip, 0) + "." + OctetText(ip, 1)
    else if p.len >= 8 then OctetText(ip, 0) + "." + OctetText(ip, 1) + "." + OctetText(ip, 2)
    else DottedText(ip)
  }

  /** The reverse name of an address (section 3.5 of RFC 1035). */
  function ReverseName(ip: Ip): string {
    OctetText(ip, 0) + "." + OctetText(ip, 1) + "." + OctetText(ip, 2) + "." + OctetText(ip, 3) + "." + SUFFIX
  }

  lemma NetworkAgrees(p: Prefix, ip: Ip)
    requires Contains(p, ip)
    ensures NetworkAddress(p) / Size(p) == ip / Size(p)
  {
    RoundDownAgrees(p.addr, Size(p));
    hide RoundDown; hide Size;
  }

  lemma RoundDownAgrees(n: nat, d: nat)
    requires d > 0
    ensures RoundDown(n, d) / d == n / d
  {
    Euclid(n, d);
    DivUnique(RoundDown(n, d), d, n / d, 0);
  }

  /** An address of a subnet and the network address have the same octets above the host part. */
  lemma OctetsAgree(p: Prefix, ip: Ip, below: nat)
    requires Contains(p, ip) && below <= 3 && 32 - p.len <= 8 * below
    ensures Octet(NetworkAddress(p), below) == Octet(ip, below)
  {
    NetworkAgrees(p, ip);
    AgreeAbove(NetworkAddress(p), ip, 32 - p.len, 8 * below);
  }

  /** Record name and zone origin together are the address's reverse name. */
  lemma ReverseNamesCompose(p: Prefix, ip: Ip)
    requires p.len >= 8 && Contains(p, ip)
    ensures ReverseZoneOrigin(p).Some?
    ensures ReverseRecordName(ip, p) + "." + ReverseZoneOrigin(p).value == ReverseName(ip)
  {
    OctetsAgree(p, ip, 3);
    if p.len >= 16 { OctetsAgree(p, ip, 2); }
    if p.len >= 24 { OctetsAgree(p, ip, 1); }
    var n := NetworkAddress(p);
    var a, b, c, d := OctetText(ip, 0), OctetText(ip, 1), OctetText(ip, 2), OctetText(ip, 3);
    assert OctetText(n, 3) == d;
    hide OctetText;
    Regroup(a, b, c, d);
  }

  lemma Regroup(a: string, b: string, c: string, d: string)
    ensures a + "." + (b + "." + c + "." + d + "." + SUFFIX) == a + "." + b + "." + c + "." + d + "." + SUFFIX
    ensures a + "." + b + "." + (c + "." + d + "." + SUFFIX) == a + "." + b + "." + c + "." + d + "." + SUFFIX
    ensures a + "." + b + "." + c + "." + (d + "." + SUFFIX) == a + "." + b + "." + c + "." + d + "." + SUFFIX
  {
  }

  // ----- Labels

  predicate IsLabelChar(c: char) {
    'a' <= c <= 'z' || '0' <= c <= '9' || c == '-'
  }

  /** What is used of str.lower: it leaves no ASCII capital, and it leaves lower-case labels as they are. */
  ghost predicate IsLower(lower: string -> string) {
    && (forall s, i | 0 <= i < |lower(s)| :: !('A' <= lower(s)[i] <= 'Z'))
    && (forall s: string | (forall i | 0 <= i < |s| :: IsLabelChar(s[i])) :: lower(s) == s)
  }

  // [^a-zA-Z0-9\-] -> "-"
  function Clean(s: string): (r: string)
    ensures |r| == |s|
  {
    seq(|s|, i requires 0 <= i < |s| => if IsLabelChar(s[i]) || 'A' <= s[i] <= 'Z' then s[i] else '-')
  }

  // -+ -> "-"
  function Collapse(s: string): string {
    if |s| < 2 then s
    else if s[0] == '-' && s[1] == '-' then Collapse(s[1..])
    else [s[0]] + Collapse(s[1..])
  }

  function StripDashes(s: string): string
    decreases |s|
  {
    if s != "" && s[0] == '-' then StripDashes(s[1..])
    else if s != "" && s[|s| - 1] == '-' then StripDashes(s[..|s| - 1])
    else s
  }

  function SanitizeDnsName(name: string, lower: string -> string): string {
    var trimmed := StripDashes(Collapse(Clean(lower(name))));
    if trimmed == "" then "unnamed" else trimmed
  }

  predicate IsLabel(s: string) {
    && s != "" && (forall i | 0 <= i < |s| :: IsLabelChar(s[i]))
    && s[0] != '-' && s[|s| - 1] != '-'
    && forall i | 0 <= i < |s| - 1 :: !(s[i] == '-' && s[i + 1] == '-')
  }

  // Collapsed text: no two dashes in a row.
  predicate Single(s: string) {
    forall i | 0 <= i < |s| - 1 :: !(s[i] == '-' && s[i + 1] == '-')
  }

  predicate LabelChars(s: string) {
    forall i | 0 <= i < |s| :: IsLabelChar(s[i])
  }

  lemma {:induction false} CollapseRange(s: string)
    requires LabelChars(s)
    ensures var r := Collapse(s); LabelChars(r) && Single(r) && (s != "" ==> r != "" && r[0] == s[0])
  {
    if |s| >= 2 {
      CollapseRange(s[1..]);
    }
  }

  lemma {:induction false} StripRange'(s: string)
    requires LabelChars(s) && Single(s)
    ensures var r := StripDashes(s); LabelChars(r) && Single(r) && (r != "" ==> r[0] != '-' && r[|r| - 1] != '-')
    decreases |s|
  {
    if s != "" && s[0] == '-' {
      StripRange'(s[1..]);
    } else if s != "" && s[|s| - 1] == '-' {
      StripRange'(s[..|s| - 1]);
    }
  }

  lemma {:induction false} CollapseFixed(s: string)
    requires Single(s)
    ensures Collapse(s) == s
  {
    if |s| >= 2 {
      assert !(s[0] == '-' && s[0 + 1] == '-');
      CollapseFixed(s[1..]);
    }
  }

  /** Whatever the name, the result is a label: a-z, 0-9 and dashes, none doubled, none at either end, and not empty. */
  lemma SanitizedIsLabel(name: string, lower: string -> string)
    requires IsLower(lower)
    ensures IsLabel(SanitizeDnsName(name, lower))
  {
    var s := Clean(lower(name));
    assert LabelChars(s);
    CollapseRange(s);
    StripRange'(Collapse(s));
    Unnamed();
  }

  lemma Unnamed()
    ensures IsLabel("unnamed")
  {
  }

  /** Labels are left alone, and nothing else is. */
  lemma LabelsAreFixed(s: string, lower: string -> string)
    requires IsLower(lower)
    ensures SanitizeDnsName(s, lower) == s <==> IsLabel(s)
  {
    SanitizedIsLabel(s, lower);
    if IsLabel(s) {
      assert lower(s) == s && Clean(s) == s;
      CollapseFixed(s);
    }
  }

  /** Cleaning up twice is cleaning up once. */
  lemma SanitizeIdempotent(name: string, lower: string -> string)
    requires IsLower(lower)
    ensures SanitizeDnsName(SanitizeDnsName(name, lower), lower) == SanitizeDnsName(name, lower)
  {
    SanitizedIsLabel(name, lower);
    LabelsAreFixed(SanitizeDnsName(name, lower), lower);
  }
}
