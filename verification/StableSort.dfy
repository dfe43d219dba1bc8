/** Python's sorted(): a stable sort, given by a relation that says which element strictly precedes which. */
module StableSort {

  ghost predicate StrictWeakOrder<T(!new)>(before: (T, T) -> bool) {
    && (forall x :: !before(x, x))
    && (forall x, y, z :: before(x, y) && before(y, z) ==> before(x, z))
    && (forall x, y, z :: before(x, z) ==> before(x, y) || before(y, z))
  }

  ghost predicate Sorted<T>(s: seq<T>, before: (T, T) -> bool) {
    forall i, j | 0 <= i < j < |s| :: !before(s[j], s[i])
  }

  predicate Tied<T>(x: T, y: T, before: (T, T) -> bool) {
    !before(x, y) && !before(y, x)
  }

  /** The elements of s that tie with x, in their order in s. */
  function TiesOf<T>(s: seq<T>, x: T, before: (T, T) -> bool): seq<T> {
    if s == [] then []
    else
      TiesOf(s[..|s| - 1], x, before) + if Tied(x, s[|s| - 1], before) then [s[|s| - 1]] else []
  }

  // x goes in front of the elements it precedes and behind those it ties with.
  function Insert<T>(s: seq<T>, x: T, before: (T, T) -> bool): (r: seq<T>)
    ensures |r| == |s| + 1
  {
    if s == [] || !before(x, s[|s| - 1]) then s + [x]
    else Insert(s[..|s| - 1], x, before) + [s[|s| - 1]]
  }

  function Sort<T>(s: seq<T>, before: (T, T) -> bool): (r: seq<T>)
    ensures |r| == |s|
  {
    if s == [] then [] else Insert(Sort(s[..|s| - 1], before), s[|s| - 1], before)
  }

  lemma {:induction false} InsertContents<T>(s: seq<T>, x: T, before: (T, T) -> bool)
    ensures multiset(Insert(s, x, before)) == multiset(s) + multiset{x}
  {
    if s != [] && before(x, s[|s| - 1]) {
      var init, last := s[..|s| - 1], s[|s| - 1];
      InsertContents(init, x, before);
      assert s == init + [last];
    }
  }

  lemma {:induction false} InsertSorted<T(!new)>(s: seq<T>, x: T, before: (T, T) -> bool)
    requires StrictWeakOrder(before) && Sorted(s, before)
    ensures Sorted(Insert(s, x, before), before)
  {
    if s != [] {
      var init, last := s[..|s| - 1], s[|s| - 1];
      if before(x, last) {
        InsertSorted(init, x, before);
        InsertContents(init, x, before);
        var t := Insert(init, x, before);
        forall i | 0 <= i < |t| ensures !before(last, t[i]) {
          assert t[i] in multiset(t);
          assert t[i] in init || t[i] == x;
        }
      } else {
        forall i | 0 <= i < |s| ensures !before(x, s[i]) {
          assert i < |s| - 1 ==> !before(last, s[i]);
        }
      }
    }
  }

  lemma {:induction false} InsertTies<T(!new)>(s: seq<T>, x: T, y: T, before: (T, T) -> bool)
    requires StrictWeakOrder(before)
    ensures TiesOf(Insert(s, x, before), y, before) == TiesOf(s, y, before) + if Tied(y, x, before) then [x] else []
  {
    if s == [] || !before(x, s[|s| - 1]) {
      assert (s + [x])[..|s|] == s;
    } else {
      var init, last := s[..|s| - 1], s[|s| - 1];
      InsertTies(init, x, y, before);
      var r := Insert(s, x, before);
      assert r[..|s|] == Insert(init, x, before) && r[|s|] == last;
    }
  }

  /** The result is sorted, a permutation, and keeps the order of elements that tie. */
  lemma {:induction false} SortIsStableSort<T(!new)>(s: seq<T>, before: (T, T) -> bool)
    requires StrictWeakOrder(before)
    ensures Sorted(Sort(s, before), before)
    ensures multiset(Sort(s, before)) == multiset(s)
    ensures forall x :: TiesOf(Sort(s, before), x, before) == TiesOf(s, x, before)
  {
    if s != [] {
      var init, last := s[..|s| - 1], s[|s| - 1];
      SortIsStableSort(init, before);
      InsertContents(Sort(init, before), last, before);
      InsertSorted(Sort(init, before), last, before);
      assert s == init + [last];
      forall x ensures TiesOf(Sort(s, before), x, before) == TiesOf(s, x, before) {
        InsertTies(Sort(init, before), last, x, before);
      }
    }
  }

  /** Nothing precedes the head of the result. */
  lemma SortHead<T(!new)>(s: seq<T>, before: (T, T) -> bool)
    requires StrictWeakOrder(before) && s != []
    ensures Sort(s, before)[0] in s
    ensures forall y | y in s :: !before(y, Sort(s, before)[0])
  {
    SortIsStableSort(s, before);
    var r := Sort(s, before);
    assert r[0] in multiset(s);
    forall y | y in s ensures !before(y, r[0]) {
      assert y in multiset(r);
      var i :| 0 <= i < |r| && r[i] == y;
    }
  }

  lemma {:induction false} InsertHead<T(!new)>(s: seq<T>, x: T, before: (T, T) -> bool)
    requires StrictWeakOrder(before) && Sorted(s, before) && s != []
    ensures Insert(s, x, before)[0] == if before(x, s[0]) then x else s[0]
  {
    var init, last := s[..|s| - 1], s[|s| - 1];
    if before(x, last) && init != [] {
      InsertHead(init, x, before);
    } else if init != [] {
      assert !before(last, s[0]);
    }
  }

  /** The head of the result precedes all that come before it in s, and nothing after it in s precedes the head. */
  lemma {:induction false} SortHeadIsFirst<T(!new)>(s: seq<T>, before: (T, T) -> bool) returns (k: nat)
    requires StrictWeakOrder(before) && s != []
    ensures k < |s| && Sort(s, before)[0] == s[k]
    ensures forall j | 0 <= j < k :: before(s[k], s[j])
    ensures forall j | k < j < |s| :: !before(s[j], s[k])
  {
    hide Sort; hide Insert; hide StrictWeakOrder; hide Sorted;
    var n := |s| - 1;
    var init, last := s[..n], s[n];
    HeadOfSort(s, before);
    if init == [] {
      k := 0;
    } else {
      k := SortHeadIsFirst(init, before);
      if before(last, init[k]) {
        BeforeAll(init, last, k, before);
        k := n;
      }
    }
  }

  lemma HeadOfSort<T(!new)>(s: seq<T>, before: (T, T) -> bool)
    requires StrictWeakOrder(before) && s != []
    ensures var n := |s| - 1;
      Sort(s, before)[0] ==
        if n == 0 || before(s[n], Sort(s[..n], before)[0]) then s[n] else Sort(s[..n], before)[0]
  {
    var n := |s| - 1;
    if n > 0 {
      SortIsStableSort(s[..n], before);
      InsertHead(Sort(s[..n], before), s[n], before);
    }
  }

  lemma BeforeAll<T(!new)>(s: seq<T>, x: T, k: nat, before: (T, T) -> bool)
    requires StrictWeakOrder(before) && k < |s| && before(x, s[k])
    requires forall j | 0 <= j < k :: before(s[k], s[j])
    requires forall j | k < j < |s| :: !before(s[j], s[k])
    ensures forall j | 0 <= j < |s| :: before(x, s[j])
  {
  }

  // Whether all that one relation orders, the other orders alike.
  ghost predicate Refines<T(!new)>(fine: (T, T) -> bool, coarse: (T, T) -> bool) {
    forall x, y :: coarse(x, y) ==> fine(x, y)
  }

  lemma {:induction false} TiesOfTies<T(!new)>(s: seq<T>, x: T, fine: (T, T) -> bool, coarse: (T, T) -> bool)
    requires Refines(fine, coarse)
    ensures TiesOf(TiesOf(s, x, coarse), x, fine) == TiesOf(s, x, fine)
  {
    if s != [] {
      var init, last := s[..|s| - 1], s[|s| - 1];
      TiesOfTies(init, x, fine, coarse);
      var ties := TiesOf(init, x, coarse);
      assert (ties + [last])[..|ties|] == ties && ties + [] == ties;
      assert TiesOf(init, x, fine) + [] == TiesOf(init, x, fine);
    }
  }

  // The last element of a list ties with itself.
  lemma LastTie<T(!new)>(s: seq<T>, before: (T, T) -> bool)
    requires StrictWeakOrder(before) && s != []
    ensures var ties := TiesOf(s, s[|s| - 1], before); ties != [] && ties[|ties| - 1] == s[|s| - 1]
  {
  }

  lemma {:induction false} TiesAreMembers<T(!new)>(s: seq<T>, x: T, before: (T, T) -> bool)
    ensures forall y | y in TiesOf(s, x, before) :: y in s
  {
    if s != [] {
      TiesAreMembers(s[..|s| - 1], x, before);
    }
  }

  lemma NotBeforeLast<T(!new)>(s: seq<T>, x: T, before: (T, T) -> bool)
    requires StrictWeakOrder(before) && Sorted(s, before) && x in s
    ensures !before(s[|s| - 1], x)
  {
    var i :| 0 <= i < |s| && s[i] == x;
  }

  lemma SameFront<T>(a: seq<T>, b: seq<T>, c: seq<T>)
    requires a + c == b + c
    ensures a == b
  {
    assert |a| == |b|;
    assert (a + c)[..|a|] == a && (b + c)[..|b|] == b;
  }

  ghost predicate SameTies<T(!new)>(s: seq<T>, t: seq<T>, before: (T, T) -> bool) {
    forall x :: TiesOf(s, x, before) == TiesOf(t, x, before)
  }

  lemma SameLast<T(!new)>(s: seq<T>, t: seq<T>, before: (T, T) -> bool)
    requires StrictWeakOrder(before) && Sorted(s, before) && Sorted(t, before) && SameTies(s, t, before)
    requires s != [] && t != []
    ensures s[|s| - 1] == t[|t| - 1]
  {
    hide TiesOf; hide StrictWeakOrder; hide Sorted;
    var l, m := s[|s| - 1], t[|t| - 1];
    LastTie(s, before);
    LastTie(t, before);
    assert TiesOf(s, l, before) == TiesOf(t, l, before) && TiesOf(s, m, before) == TiesOf(t, m, before);
    TiesAreMembers(t, l, before);
    TiesAreMembers(s, m, before);
    NotBeforeLast(s, m, before);
    NotBeforeLast(t, l, before);
    TiedTies(t, l, m, before);
  }

  // Elements that tie have the same ties.
  lemma {:induction false} TiedTies<T(!new)>(s: seq<T>, x: T, y: T, before: (T, T) -> bool)
    requires StrictWeakOrder(before) && Tied(x, y, before)
    ensures TiesOf(s, x, before) == TiesOf(s, y, before)
  {
    if s != [] {
      TiedTies(s[..|s| - 1], x, y, before);
    }
  }

  lemma NoTies<T(!new)>(s: seq<T>, before: (T, T) -> bool)
    requires StrictWeakOrder(before) && SameTies([], s, before)
    ensures s == []
  {
    if s != [] {
      LastTie(s, before);
    }
  }

  lemma SameTiesBefore<T(!new)>(s: seq<T>, t: seq<T>, l: T, before: (T, T) -> bool)
    requires SameTies(s + [l], t + [l], before)
    ensures SameTies(s, t, before)
  {
    assert (s + [l])[..|s|] == s && (t + [l])[..|t|] == t;
    forall x ensures TiesOf(s, x, before) == TiesOf(t, x, before) {
      assert TiesOf(s + [l], x, before) == TiesOf(t + [l], x, before);
      SameFront(TiesOf(s, x, before), TiesOf(t, x, before), if Tied(x, l, before) then [l] else []);
    }
  }

  /** A sorted list is given by its ties. */
  lemma {:induction false} SortedIsUnique<T(!new)>(s: seq<T>, t: seq<T>, before: (T, T) -> bool)
    requires StrictWeakOrder(before) && Sorted(s, before) && Sorted(t, before) && SameTies(s, t, before)
    ensures s == t
  {
    hide StrictWeakOrder; hide SameTies;
    if s == [] {
      NoTies(t, before);
    } else if t == [] {
      assert SameTies(t, s, before) by { SameTiesBack(s, t, before); }
      NoTies(s, before);
    } else {
      SameLast(s, t, before);
      var init, rest, l := s[..|s| - 1], t[..|t| - 1], s[|s| - 1];
      assert s == init + [l] && t == rest + [l];
      SameTiesBefore(init, rest, l, before);
      SortedIsUnique(init, rest, before);
    }
  }

  lemma SameTiesBack<T(!new)>(s: seq<T>, t: seq<T>, before: (T, T) -> bool)
    requires SameTies(s, t, before)
    ensures SameTies(t, s, before)
  {
  }

  /** Sorting by a coarser key first changes nothing. */
  lemma SortTwice<T(!new)>(s: seq<T>, fine: (T, T) -> bool, coarse: (T, T) -> bool)
    requires StrictWeakOrder(fine) && StrictWeakOrder(coarse) && Refines(fine, coarse)
    ensures Sort(Sort(s, coarse), fine) == Sort(s, fine)
  {
    var first := Sort(s, coarse);
    SortIsStableSort(s, coarse);
    SortIsStableSort(s, fine);
    SortIsStableSort(first, fine);
    forall x ensures TiesOf(Sort(first, fine), x, fine) == TiesOf(Sort(s, fine), x, fine) {
      TiesOfTies(first, x, fine, coarse);
      TiesOfTies(s, x, fine, coarse);
    }
    SortedIsUnique(Sort(first, fine), Sort(s, fine), fine);
  }
}
