/** Optional values: Python's None, or a value. */
module Options {

  datatype Option<+T> = None | Some(value: T)
}

/** Facts about slices and concatenations of sequences. */
module Seqs {

  lemma SliceOfSlice<T>(s: seq<T>, k: nat, l: nat, i: nat, j: nat)
    requires k <= l <= |s| && i <= j <= l - k
    ensures s[k..l][i..j] == s[k + i..k + j]
  {
    var t := s[k..l];
    assert forall m | 0 <= m < j - i :: t[i..j][m] == t[i + m] == s[k + i + m];
  }

  lemma DropOfDrop<T>(s: seq<T>, k: nat, i: nat)
    requires k + i <= |s|
    ensures s[k..][i..] == s[k + i..]
  {
  }

  lemma Assoc<T>(a: seq<T>, b: seq<T>, c: seq<T>)
    ensures a + b + c == a + (b + c)
  {
  }

  /** Taking a concatenation apart again. */
  lemma Parts<T>(a: seq<T>, b: seq<T>)
    ensures (a + b)[..|a|] == a && (a + b)[|a|..] == b
    ensures a != [] ==> (a + b)[0] == a[0] && (a + b)[1..] == a[1..] + b
    ensures a == [] ==> a + b == b
    ensures b == [] ==> a + b == a
  {
  }
}

/** Python's string operations as the backend and the daemon use them, on sequences of code points. */
module Text {

  import opened Seqs

  // The code points for which str.isspace() holds; re's \s and str.strip() use the same set.
  predicate IsSpace(c: char) {
    var n := c as int;
    9 <= n <= 13 || 28 <= n <= 32 || n in {0x85, 0xa0, 0x1680, 0x2028, 0x2029, 0x202f, 0x205f, 0x3000} || 0x2000 <= n <= 0x200a
  }

  // re's \w, for the ASCII characters.
  predicate IsWord(c: char) {
    'a' <= c <= 'z' || 'A' <= c <= 'Z' || '0' <= c <= '9' || c == '_'
  }

  /** The number of leading characters of s that satisfy p. */
  function Span(s: string, p: char -> bool): (n: nat)
    ensures n <= |s|
  {
    if s != [] && p(s[0]) then 1 + Span(s[1..], p) else 0
  }

  /** The position of the first c in s, or |s| when there is none. */
  function IndexOf(s: string, c: char): (n: nat)
    ensures n <= |s| && c !in s[..n] && (n < |s| ==> s[n] == c)
  {
    if s == [] || s[0] == c then 0 else 1 + IndexOf(s[1..], c)
  }

  /** s.split(c) for a one-character separator. */
  function Split(s: string, c: char): (parts: seq<string>)
    ensures parts != []
    decreases |s|
  {
    var n := IndexOf(s, c);
    if n == |s| then [s] else [s[..n]] + Split(s[n + 1..], c)
  }

  function StripLeft(s: string): string {
    s[Span(s, IsSpace)..]
  }

  function StripRight(s: string): string {
    if s != [] && IsSpace(s[|s| - 1]) then StripRight(s[..|s| - 1]) else s
  }

  /** s.strip() */
  function Strip(s: string): string {
    StripRight(StripLeft(s))
  }

  /** sep.join(parts) */
  function Join(parts: seq<string>, sep: string): string {
    if parts == [] then ""
    else if |parts| == 1 then parts[0]
    else parts[0] + sep + Join(parts[1..], sep)
  }

  /** [x.strip() for x in s.split(",") if x.strip()] */
  function Items(s: string): seq<string> {
    StrippedNonEmpty(Split(s, ','))
  }

  function StrippedNonEmpty(parts: seq<string>): seq<string> {
    if parts == [] then []
    else (if Strip(parts[0]) == "" then [] else [Strip(parts[0])]) + StrippedNonEmpty(parts[1..])
  }

  /** What the items of a comma-separated list look like. */
  predicate IsItem(s: string) {
    s != "" && ',' !in s && !IsSpace(s[0]) && !IsSpace(s[|s| - 1])
  }

  // No occurrence of pat begins anywhere in s.
  ghost predicate FreeOf(s: string, pat: string) {
    forall i | 0 <= i < |s| :: !(pat <= s[i..])
  }

  // v is a contiguous part of s.
  ghost predicate Within(v: string, s: string) {
    exists i, j | 0 <= i <= j <= |s| :: v == s[i..j]
  }

  lemma WithinTrans(v: string, w: string, s: string)
    requires Within(v, w) && Within(w, s)
    ensures Within(v, s)
  {
    var i, j :| 0 <= i <= j <= |w| && v == w[i..j];
    var k, l :| 0 <= k <= l <= |s| && w == s[k..l];
    SliceOfSlice(s, k, l, i, j);
  }

  /** A part of a text holds no character and no pattern that the text does not. */
  lemma WithinInherits(v: string, s: string, pat: string)
    requires Within(v, s) && pat != ""
    ensures forall c | c in v :: c in s
    ensures FreeOf(s, pat) ==> FreeOf(v, pat)
  {
    var k, l :| 0 <= k <= l <= |s| && v == s[k..l];
    forall i | 0 <= i < |v|
      ensures pat <= v[i..] ==> pat <= s[k + i..]
    {
      if pat <= v[i..] {
        assert s[k + i..][..|pat|] == v[i..][..|pat|];
      }
    }
  }

  lemma {:induction false} SpanMax(a: string, b: string, p: char -> bool)
    requires forall c | c in a :: p(c)
    requires b != "" ==> !p(b[0])
    ensures Span(a + b, p) == |a|
  {
    if a == "" {
      assert a + b == b;
    } else {
      assert (a + b)[1..] == a[1..] + b;
      SpanMax(a[1..], b, p);
    }
  }

  lemma {:induction false} SpanStops(s: string, p: char -> bool)
    ensures var n := Span(s, p); n < |s| ==> !p(s[n])
    ensures forall i | 0 <= i < Span(s, p) :: p(s[i])
  {
    if s != [] && p(s[0]) {
      SpanStops(s[1..], p);
      forall i | 0 <= i < Span(s, p) ensures p(s[i]) {
        if i > 0 { assert s[i] == s[1..][i - 1]; }
      }
    }
  }

  lemma {:induction false} IndexOfFirst(a: string, b: string, c: char)
    requires c !in a && (b != "" ==> b[0] == c)
    ensures IndexOf(a + b, c) == |a|
  {
    if a == "" {
      assert a + b == b;
    } else {
      assert (a + b)[1..] == a[1..] + b;
      IndexOfFirst(a[1..], b, c);
    }
  }

  lemma {:induction false} StripRightWithin(s: string)
    ensures StripRight(s) <= s
    ensures var t := StripRight(s); t != "" ==> !IsSpace(t[|t| - 1])
  {
    if s != [] && IsSpace(s[|s| - 1]) {
      StripRightWithin(s[..|s| - 1]);
    }
  }

  lemma StripRange(s: string)
    ensures var t := Strip(s); Within(t, s) && (t != "" ==> !IsSpace(t[0]) && !IsSpace(t[|t| - 1]))
  {
    var n, l := Span(s, IsSpace), StripLeft(s);
    SpanStops(s, IsSpace);
    StripRightWithin(l);
    var t := Strip(s);
    assert t == l[..|t|] == s[n..n + |t|];
  }

  /** Stripping leaves a string that neither begins nor ends with a space. */
  lemma StripTrimmed(s: string)
    requires s != "" ==> !IsSpace(s[0]) && !IsSpace(s[|s| - 1])
    ensures Strip(s) == s && Strip(" " + s) == s
  {
    SpanMax("", s, IsSpace);
    assert "" + s == s;
    SpanMax(" ", s, IsSpace);
  }

  lemma {:induction false} SplitRange(s: string, c: char)
    ensures forall p | p in Split(s, c) :: c !in p && Within(p, s)
    decreases |s|
  {
    var n := IndexOf(s, c);
    if n == |s| {
      WithinSlice(s, 0, n);
      assert s[0..n] == s;
    } else {
      var rest := s[n + 1..];
      SplitRange(rest, c);
      WithinSlice(s, 0, n);
      WithinSlice(s, n + 1, |s|);
      var parts := Split(rest, c);
      assert Split(s, c) == [s[..n]] + parts;
      assert c !in s[..n];
      hide Within; hide IndexOf; hide Split;
      forall p | p in parts ensures c !in p && Within(p, s) {
        WithinTrans(p, rest, s);
      }
    }
  }

  lemma WithinSlice(s: string, i: nat, j: nat)
    requires i <= j <= |s|
    ensures Within(s[i..j], s) && (i == 0 ==> s[i..j] == s[..j]) && (j == |s| ==> s[i..j] == s[i..])
  {
  }

  /** Whatever Items reads from a text is an item, and a part of the text. */
  lemma ItemsRange(s: string)
    ensures forall t | t in Items(s) :: IsItem(t) && Within(t, s)
  {
    SplitRange(s, ',');
    StrippedRange(Split(s, ','), s);
  }

  lemma {:induction false} StrippedRange(parts: seq<string>, s: string)
    requires forall p | p in parts :: ',' !in p && Within(p, s)
    ensures forall t | t in StrippedNonEmpty(parts) :: IsItem(t) && Within(t, s)
  {
    if parts != [] {
      StripRange(parts[0]);
      WithinTrans(Strip(parts[0]), parts[0], s);
      WithinInherits(Strip(parts[0]), parts[0], ",");
      StrippedRange(parts[1..], s);
    }
  }

  /** Splitting at the first c. */
  lemma SplitFirst(a: string, b: string, c: char)
    requires c !in a
    ensures Split(a, c) == [a]
    ensures Split(a + [c] + b, c) == [a] + Split(b, c)
  {
    IndexOfFirst(a, "", c);
    assert a + "" == a;
    IndexOfFirst(a, [c] + b, c);
    assert a + [c] + b == a + ([c] + b);
    assert (a + ([c] + b))[|a| + 1..] == b;
  }

  lemma ItemsStep(lead: string, x: string, rest: string)
    requires IsItem(x) && (lead == "" || lead == " ")
    ensures Items(lead + x) == [x]
    ensures Items(lead + x + [','] + rest) == [x] + Items(rest)
  {
    var y := lead + x;
    assert "" + x == x;
    StripTrimmed(x);
    SplitFirst(y, rest, ',');
    var parts := Split(rest, ',');
    assert ([y] + parts)[1..] == parts && [y][1..] == [];
    assert StrippedNonEmpty([y]) == [x] + StrippedNonEmpty([]);
  }

  lemma JoinStep(lead: string, items: seq<string>)
    requires |items| > 1
    ensures lead + Join(items, ", ") == lead + items[0] + [','] + (" " + Join(items[1..], ", "))
  {
    var rest := Join(items[1..], ", ");
    assert ", " == [','] + " ";
    Assoc([','], " ", rest);
    Assoc(items[0], ", ", rest);
    Assoc(lead, items[0], [','] + (" " + rest));
    Assoc(lead + items[0], [','], " " + rest);
  }

  /** Reading back a comma-separated list of items. */
  lemma {:induction false} ItemsOfJoin(items: seq<string>, lead: string)
    requires forall t | t in items :: IsItem(t)
    requires items != []
    requires lead == "" || lead == " "
    ensures Items(lead + Join(items, ", ")) == items
  {
    var x := items[0];
    assert x in items;
    if |items| == 1 {
      ItemsStep(lead, x, "");
    } else {
      var rest := Join(items[1..], ", ");
      assert forall t | t in items[1..] :: t in items;
      ItemsOfJoin(items[1..], " ");
      ItemsStep(lead, x, " " + rest);
      JoinStep(lead, items);
      assert [x] + items[1..] == items;
    }
  }

  lemma {:induction false} JoinAppend(a: seq<string>, b: seq<string>, sep: string)
    requires a != [] && b != []
    ensures Join(a + b, sep) == Join(a, sep) + sep + Join(b, sep)
  {
    if |a| == 1 {
      assert (a + b)[1..] == b;
    } else {
      assert (a + b)[1..] == a[1..] + b;
      JoinAppend(a[1..], b, sep);
    }
  }
}
