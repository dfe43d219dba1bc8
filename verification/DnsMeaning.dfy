/** Names in literal terms: reverse names octet by octet, and cleaned-up names word by word. */
module DnsMeaning {

  import opened Options
  import opened Seqs
  import opened Text
  import opened Decimal
  import opened Address
  import opened DnsRecords

  // ----- Reverse names

  // The address with these four octets.
  function AddressOf(a: nat, b: nat, c: nat, d: nat): nat {
    0x100_0000 * a + 0x1_0000 * b + 0x100 * c + d
  }

  lemma OctetsAre(a: nat, b: nat, c: nat, d: nat)
    requires a < 256 && b < 256 && c < 256 && d < 256
    ensures AddressOf(a, b, c, d) < ADDRESSES
    ensures var ip := AddressOf(a, b, c, d); Octet(ip, 0) == d && Octet(ip, 1) == c && Octet(ip, 2) == b && Octet(ip, 3) == a
  {
    Pow2Of32();
    PowOfNone();
    var ip := AddressOf(a, b, c, d);
    assert ip % 256 == d && ip / 256 == 0x1_0000 * a + 0x100 * b + c;
    assert ip / 256 % 256 == c && ip / 0x1_0000 == 0x100 * a + b;
    assert ip / 0x1_0000 % 256 == b && ip / 0x100_0000 == a;
    hide Pow2;
  }

  lemma PowOfNone()
    ensures Pow2(0) == 1
  {
  }

  /** The reverse name of a.b.c.d is d.c.b.a.in-addr.arpa. */
  lemma ReverseNameIs(a: nat, b: nat, c: nat, d: nat)
    requires a < 256 && b < 256 && c < 256 && d < 256 && AddressOf(a, b, c, d) < ADDRESSES
    ensures ReverseName(AddressOf(a, b, c, d)) ==
      NatText(d) + "." + NatText(c) + "." + NatText(b) + "." + NatText(a) + "." + "in-addr.arpa"
  {
    OctetsAre(a, b, c, d);
    hide NatText; hide Octet;
  }

  /** The zone of a subnet that holds a.b.c.d, and the record of the address in it, by the length of the prefix. */
  lemma ZoneAndRecordAre(p: Prefix, a: nat, b: nat, c: nat, d: nat)
    requires a < 256 && b < 256 && c < 256 && d < 256 && AddressOf(a, b, c, d) < ADDRESSES
    requires Contains(p, AddressOf(a, b, c, d))
    ensures var ip, end := AddressOf(a, b, c, d), NatText(a) + "." + "in-addr.arpa";
      && (p.len >= 24 ==>
            && ReverseZoneOrigin(p) == Some(NatText(c) + "." + NatText(b) + "." + end)
            && ReverseRecordName(ip, p) == NatText(d))
      && (16 <= p.len < 24 ==>
            && ReverseZoneOrigin(p) == Some(NatText(b) + "." + end)
            && ReverseRecordName(ip, p) == NatText(d) + "." + NatText(c))
      && (8 <= p.len < 16 ==>
            && ReverseZoneOrigin(p) == Some(end)
            && ReverseRecordName(ip, p) == NatText(d) + "." + NatText(c) + "." + NatText(b))
      && (p.len < 8 ==>
            && ReverseZoneOrigin(p) == None
            && ReverseRecordName(ip, p) == NatText(a) + "." + NatText(b) + "." + NatText(c) + "." + NatText(d))
  {
    var ip := AddressOf(a, b, c, d);
    OctetsAre(a, b, c, d);
    if p.len >= 8 { OctetsAgree(p, ip, 3); }
    if p.len >= 16 { OctetsAgree(p, ip, 2); }
    if p.len >= 24 { OctetsAgree(p, ip, 1); }
    hide NatText; hide Octet; hide Contains; hide NetworkAddress;
    if p.len >= 24 {
      FromRight(NatText(c), NatText(b), NatText(a));
    } else if p.len >= 16 {
      FromRight("", NatText(b), NatText(a));
    }
  }

  lemma FromRight(c: string, b: string, a: string)
    ensures c + "." + b + "." + a + "." + "in-addr.arpa" == c + "." + b + "." + (a + "." + "in-addr.arpa")
    ensures b + "." + a + "." + "in-addr.arpa" == b + "." + (a + "." + "in-addr.arpa")
  {
  }

  // ----- Cleaned-up names

  predicate IsAlnum(ch: char) {
    var n := ch as int;
    97 <= n <= 122 || 48 <= n <= 57
  }

  function Run(s: string): (n: nat)
    ensures n <= |s| && (forall i | 0 <= i < n :: IsAlnum(s[i])) && (n < |s| ==> !IsAlnum(s[n]))
  {
    if s != "" && IsAlnum(s[0]) then 1 + Run(s[1..]) else 0
  }

  /** The runs of letters a-z and digits in a text. */
  function Words(s: string): seq<string>
    decreases |s|
  {
    if s == "" then []
    else if !IsAlnum(s[0]) then Words(s[1..])
    else [s[..Run(s)]] + Words(s[Run(s)..])
  }

  // A letter in front lengthens the first word or is one of its own.
  lemma LetterInFront(ch: char, s: string)
    requires IsAlnum(ch)
    ensures s != "" && IsAlnum(s[0]) ==> Words(s) != [] && Words([ch] + s) == [[ch] + Words(s)[0]] + Words(s)[1..]
    ensures s == "" || !IsAlnum(s[0]) ==> Words([ch] + s) == [[ch]] + Words(s)
  {
    var t := [ch] + s;
    assert t[1..] == s;
    var n := Run(t);
    assert n == 1 + Run(s);
    assert t[..n] == [ch] + s[..n - 1] && t[n..] == s[n - 1..];
    if s == "" || !IsAlnum(s[0]) {
      assert s[..0] == "" && s[0..] == s && [ch] + "" == [ch];
    }
  }

  lemma OtherInFront(ch: char, s: string)
    requires !IsAlnum(ch)
    ensures Words([ch] + s) == Words(s)
  {
    assert ([ch] + s)[1..] == s;
  }

  // Two texts that begin alike and have the same words still have with a character in front.
  lemma SameInFront(ch: char, s: string, t: string)
    requires Words(s) == Words(t)
    requires (s != "" && IsAlnum(s[0])) <==> (t != "" && IsAlnum(t[0]))
    ensures Words([ch] + s) == Words([ch] + t)
  {
    if IsAlnum(ch) {
      LetterInFront(ch, s);
      LetterInFront(ch, t);
    } else {
      OtherInFront(ch, s);
      OtherInFront(ch, t);
    }
    hide Words;
  }

  // Replacing other characters by others leaves the words.
  lemma {:induction false} SameWords(s: string, t: string)
    requires |s| == |t| && forall i | 0 <= i < |s| :: s[i] == t[i] || (!IsAlnum(s[i]) && !IsAlnum(t[i]))
    ensures Words(s) == Words(t)
  {
    if s != "" {
      SameWords(s[1..], t[1..]);
      assert s == [s[0]] + s[1..] && t == [t[0]] + t[1..];
      if s[0] == t[0] {
        SameInFront(s[0], s[1..], t[1..]);
      } else {
        OtherInFront(s[0], s[1..]);
        OtherInFront(t[0], t[1..]);
      }
      hide Words;
    }
  }

  lemma {:induction false} CollapseKeepsWords(s: string)
    ensures Words(Collapse(s)) == Words(s)
    ensures s != "" ==> Collapse(s) != "" && Collapse(s)[0] == s[0]
  {
    if |s| >= 2 {
      CollapseKeepsWords(s[1..]);
      assert s == [s[0]] + s[1..];
      if s[0] == '-' && s[1] == '-' {
        OtherInFront('-', s[1..]);
      } else {
        SameInFront(s[0], Collapse(s[1..]), s[1..]);
      }
      hide Words;
    }
  }

  lemma {:induction false} OtherAtEnd(s: string, ch: char)
    requires !IsAlnum(ch)
    ensures Words(s + [ch]) == Words(s)
  {
    if s == "" {
      OtherInFront(ch, "");
      assert "" + [ch] == [ch] + "";
    } else {
      OtherAtEnd(s[1..], ch);
      assert s + [ch] == [s[0]] + (s[1..] + [ch]) && s == [s[0]] + s[1..];
      SameInFront(s[0], s[1..] + [ch], s[1..]);
      hide Words;
    }
  }

  lemma {:induction false} StripKeepsWords(s: string)
    ensures Words(StripDashes(s)) == Words(s)
    decreases |s|
  {
    if s != "" && s[0] == '-' {
      StripKeepsWords(s[1..]);
      assert s == ['-'] + s[1..];
      OtherInFront('-', s[1..]);
      hide Words;
    } else if s != "" && s[|s| - 1] == '-' {
      var init := s[..|s| - 1];
      StripKeepsWords(init);
      assert s == init + ['-'];
      OtherAtEnd(init, '-');
      hide Words;
    }
  }

  /** A label is its words, joined by dashes. */
  lemma {:induction false} LabelIsWords(s: string)
    requires IsLabel(s)
    ensures Words(s) != [] && Join(Words(s), "-") == s
    decreases |s|
  {
    hide IsLabel; hide Words; hide Join; hide Run;
    DashOrAlnum(s);
    var n := Run(s);
    FirstRun(s);
    if n == |s| {
      OneWord(s);
    } else {
      var rest := s[n + 1..];
      LabelBehind(s, n);
      LabelIsWords(rest);
      WordsStep(s, n);
      JoinWords(s[..n], Words(rest));
      assert s == s[..n] + "-" + rest;
    }
  }

  lemma FirstRun(s: string)
    requires s != "" && IsAlnum(s[0]) && forall i | 0 <= i < |s| :: IsAlnum(s[i]) || s[i] == '-'
    ensures 0 < Run(s) <= |s| && (Run(s) < |s| ==> s[Run(s)] == '-')
  {
  }

  lemma OneWord(s: string)
    requires s != "" && Run(s) == |s|
    ensures Words(s) == [s] && Join([s], "-") == s
  {
    assert s[..|s|] == s && s[|s|..] == "";
    assert IsAlnum(s[0]);
  }

  lemma WordsStep(s: string, n: nat)
    requires n == Run(s) && 0 < n < |s| && s[n] == '-'
    ensures Words(s) == [s[..n]] + Words(s[n + 1..])
  {
    assert IsAlnum(s[0]);
    assert s[n..] == ['-'] + s[n + 1..];
    OtherInFront('-', s[n + 1..]);
  }

  lemma JoinWords(word: string, words: seq<string>)
    requires words != []
    ensures Join([word] + words, "-") == word + "-" + Join(words, "-")
  {
    assert ([word] + words)[1..] == words;
  }

  lemma DashOrAlnum(s: string)
    requires IsLabel(s)
    ensures forall i | 0 <= i < |s| :: IsAlnum(s[i]) || s[i] == '-'
    ensures s != "" && IsAlnum(s[0])
  {
    assert IsLabelChar(s[0]);
  }

  lemma LabelBehind(s: string, n: nat)
    requires IsLabel(s) && n < |s| && s[n] == '-'
    ensures n + 1 < |s| && IsLabel(s[n + 1..])
  {
    var rest := s[n + 1..];
    assert !(s[n] == '-' && s[n + 1] == '-');
    forall i | 0 <= i < |rest| - 1 ensures !(rest[i] == '-' && rest[i + 1] == '-') {
      assert !(s[n + 1 + i] == '-' && s[n + 1 + i + 1] == '-');
    }
  }

  /** The cleaned-up name is the words of the lower-cased name, joined by dashes, or "unnamed" when it has none. */
  lemma SanitizedIsWords(name: string, lower: string -> string)
    requires IsLower(lower)
    ensures var words := Words(lower(name));
      SanitizeDnsName(name, lower) == if words == [] then "unnamed" else Join(words, "-")
  {
    var s := lower(name);
    var c := Clean(s);
    SameWords(s, c);
    CollapseKeepsWords(c);
    StripKeepsWords(Collapse(c));
    var t := StripDashes(Collapse(c));
    if t == "" {
      assert Words(t) == [];
    } else {
      CollapseRange(c);
      StripRange'(Collapse(c));
      LabelIsWords(t);
    }
    hide Words; hide Join; hide Collapse; hide StripDashes;
  }
}
