/** The in-memory sliding-window rate limiter, against the full history of accepted requests. */
module RateLimiter {

  // Failed stands for the IndexError of reading the head of an empty deque, which a limit of 0 or less provokes.
  datatype Verdict = Allowed | Denied(retryAfter: int) | Failed

  datatype Limits = Limits(max: int, window: nat)

  type Clients = map<string, seq<real>>

  // int(x) truncates toward zero.
  function Truncate(x: real): int {
    if x >= 0.0 then x.Floor else -((-x).Floor)
  }

  function RetryHint(oldest: real, now: real, window: nat): (r: int)
    ensures r >= 1
  {
    var left := Truncate(oldest + window as real - now);
    if left < 1 then 1 else left
  }

  function Queue(clients: Clients, key: string): seq<real> {
    if key in clients then clients[key] else []
  }

  function Evict(q: seq<real>, start: real): seq<real> {
    if q != [] && q[0] < start then Evict(q[1..], start) else q
  }

  function Decide(live: seq<real>, now: real, limits: Limits): Verdict {
    if |live| < limits.max then Allowed
    else if live == [] then Failed
    else Denied(RetryHint(live[0], now, limits.window))
  }

  function WindowStart(now: real, limits: Limits): real {
    now - limits.window as real
  }

  /** The deque after a check at the given time. */
  function Checked(q: seq<real>, now: real, limits: Limits): seq<real> {
    var live := Evict(q, WindowStart(now, limits));
    if Decide(live, now, limits) == Allowed then live + [now] else live
  }

  predicate Stale(q: seq<real>, start: real) {
    q != [] && q[|q| - 1] < start
  }

  function Cleaned(clients: Clients, start: real): Clients {
    map k | k in clients && !Stale(clients[k], start) :: clients[k]
  }

  class Limiter {
    const limits: Limits
    var clients: Clients

    constructor (limits: Limits)
      ensures this.limits == limits && clients == map[]
    {
      this.limits := limits;
      clients := map[];
    }

    method Check(key: string, now: real) returns (v: Verdict)
      modifies this
      ensures v == Decide(Evict(Queue(old(clients), key), WindowStart(now, limits)), now, limits)
      ensures clients == old(clients)[key := Checked(Queue(old(clients), key), now, limits)]
    {
      var start := WindowStart(now, limits);
      var timestamps := if key in clients then clients[key] else [];
      ghost var live := Evict(timestamps, start);
      while timestamps != [] && timestamps[0] < start
        invariant Evict(timestamps, start) == live
      {
        timestamps := timestamps[1..];
      }
      if |timestamps| >= limits.max {
        clients := clients[key := timestamps];
        if timestamps == [] {
          return Failed;
        }
        var left := Truncate(timestamps[0] + limits.window as real - now);
        return Denied(if left < 1 then 1 else left);
      }
      clients := clients[key := timestamps + [now]];
      v := Allowed;
    }

    method Cleanup(now: real)
      modifies this
      ensures clients == Cleaned(old(clients), WindowStart(now, limits))
    {
      var start := WindowStart(now, limits);
      var staleKeys := set k | k in clients && Stale(clients[k], start);
      ghost var all := staleKeys;
      while staleKeys != {}
        invariant staleKeys <= all
        invariant clients == old(clients) - (all - staleKeys)
      {
        var k :| k in staleKeys;
        clients := clients - {k};
        staleKeys := staleKeys - {k};
      }
    }

    method Reset(key: string)
      modifies this
      ensures clients == old(clients) - {key}
    {
      clients := clients - {key};
    }
  }

  // ----- Runs, and the full history

  datatype Event = Check(key: string, now: real) | Cleanup(now: real) | Reset(key: string, now: real)

  function Step(clients: Clients, e: Event, limits: Limits): Clients {
    match e
    case Check(key, now) => clients[key := Checked(Queue(clients, key), now, limits)]
    case Cleanup(now) => Cleaned(clients, WindowStart(now, limits))
    case Reset(key, _) => clients - {key}
  }

  /** The limiter's state after a run that starts from none. */
  function After(es: seq<Event>, limits: Limits): Clients {
    if es == [] then map[] else Step(After(es[..|es| - 1], limits), es[|es| - 1], limits)
  }

  /** What a check of key at the given time answers after a run. */
  function VerdictAfter(es: seq<Event>, key: string, now: real, limits: Limits): Verdict {
    Decide(Evict(Queue(After(es, limits), key), WindowStart(now, limits)), now, limits)
  }

  /** The clock readings of the run never decrease, and now is no earlier than the last of them. */
  predicate Clocked(es: seq<Event>, now: real) {
    es == [] || (es[|es| - 1].now <= now && Clocked(es[..|es| - 1], es[|es| - 1].now))
  }

  function Since(h: seq<real>, start: real): seq<real> {
    if h == [] then []
    else if h[0] >= start then [h[0]] + Since(h[1..], start)
    else Since(h[1..], start)
  }

  /**
   * The reference: every accepted time of key since its last reset. A check counts those in the window that ends
   * at the current time, and nothing is ever evicted.
   */
  function History(es: seq<Event>, key: string, limits: Limits): seq<real> {
    if es == [] then []
    else
      var h := History(es[..|es| - 1], key, limits);
      match es[|es| - 1]
      case Check(k, now) =>
        if k == key && Decide(Since(h, WindowStart(now, limits)), now, limits) == Allowed then h + [now] else h
      case Cleanup(_) => h
      case Reset(k, _) => if k == key then [] else h
  }

  ghost predicate Ascending(h: seq<real>) {
    forall i, j | 0 <= i < j < |h| :: h[i] <= h[j]
  }

  /** The deque q is the history h without some entries that lie before start. */
  ghost predicate Represents(q: seq<real>, h: seq<real>, start: real) {
    && |q| <= |h| && q == h[|h| - |q|..]
    && forall i | 0 <= i < |h| - |q| :: h[i] < start
  }

  lemma {:induction false} SinceSplit(h: seq<real>, start: real, n: nat)
    requires n <= |h| && forall i | 0 <= i < n :: h[i] < start
    requires forall i | n <= i < |h| :: h[i] >= start
    ensures Since(h, start) == h[n..]
  {
    if h != [] {
      SinceSplit(h[1..], start, if n > 0 then n - 1 else 0);
      if n == 0 {
        assert h == [h[0]] + h[1..];
      }
    }
  }

  lemma {:induction false} EvictSplit(q: seq<real>, start: real)
    requires Ascending(q)
    ensures var n := |q| - |Evict(q, start)|;
      && 0 <= n && Evict(q, start) == q[n..]
      && (forall i | 0 <= i < n :: q[i] < start)
      && forall i | n <= i < |q| :: q[i] >= start
  {
    if q != [] && q[0] < start {
      EvictSplit(q[1..], start);
      var n := |q| - |Evict(q, start)|;
      forall i | 0 <= i < n ensures q[i] < start {
        if i > 0 { assert q[i] == q[1..][i - 1]; }
      }
      forall i | n <= i < |q| ensures q[i] >= start {
        assert q[i] == q[1..][i - 1];
      }
    }
  }

  /** Evicting from the deque leaves exactly the accepted times in the window. */
  lemma EvictIsSince(q: seq<real>, h: seq<real>, before: real, start: real)
    requires Ascending(h) && Represents(q, h, before) && before <= start
    ensures Evict(q, start) == Since(h, start)
    ensures Represents(Evict(q, start), h, start)
  {
    var m := |h| - |q|;
    assert forall i | 0 <= i < |q| :: q[i] == h[m + i];
    EvictSplit(q, start);
    var n := |q| - |Evict(q, start)|;
    forall i | m + n <= i < |h| ensures h[i] >= start {
      assert h[i] == q[i - m];
    }
    forall i | 0 <= i < m + n ensures h[i] < start {
      if i >= m { assert h[i] == q[i - m]; }
    }
    SinceSplit(h, start, m + n);
    assert q[n..] == h[m + n..];
  }

  /** The history h is ascending and not ahead of the clock; q misses only entries older than the window. */
  ghost predicate StandsFor(q: seq<real>, h: seq<real>, now: real, limits: Limits) {
    && Ascending(h) && (forall t | t in h :: t <= now)
    && Represents(q, h, WindowStart(now, limits))
    && |q| <= (if limits.max > 0 then limits.max else 0)
  }

  lemma StandsForLater(q: seq<real>, h: seq<real>, before: real, now: real, limits: Limits)
    requires StandsFor(q, h, before, limits) && before <= now
    ensures StandsFor(q, h, now, limits)
  {
  }

  lemma StandsForChecked(q: seq<real>, h: seq<real>, now: real, limits: Limits)
    requires StandsFor(q, h, now, limits)
    ensures var allowed := Decide(Since(h, WindowStart(now, limits)), now, limits) == Allowed;
      StandsFor(Checked(q, now, limits), if allowed then h + [now] else h, now, limits)
  {
    hide Represents; hide Evict; hide Since;
    var start := WindowStart(now, limits);
    EvictIsSince(q, h, start, start);
    EvictShorter(q, start);
    if Decide(Evict(q, start), now, limits) == Allowed {
      RepresentsAppend(Evict(q, start), h, now, start);
      AscendingAppend(h, now);
    }
  }

  lemma AscendingAppend(h: seq<real>, now: real)
    requires Ascending(h) && forall t | t in h :: t <= now
    ensures Ascending(h + [now]) && forall t | t in h + [now] :: t <= now
  {
    forall i | 0 <= i < |h| ensures h[i] <= now {
      assert h[i] in h;
    }
  }

  lemma {:induction false} EvictShorter(q: seq<real>, start: real)
    ensures |Evict(q, start)| <= |q|
  {
    if q != [] && q[0] < start {
      EvictShorter(q[1..], start);
    }
  }

  lemma RepresentsAppend(q: seq<real>, h: seq<real>, t: real, start: real)
    requires Represents(q, h, start)
    ensures Represents(q + [t], h + [t], start)
  {
    var q', h' := q + [t], h + [t];
    assert h'[|h'| - |q'|..] == h[|h| - |q|..] + [t];
  }

  lemma StandsForCleaned(q: seq<real>, h: seq<real>, now: real, limits: Limits)
    requires StandsFor(q, h, now, limits) && Stale(q, WindowStart(now, limits))
    ensures StandsFor([], h, now, limits)
  {
    assert q[|q| - 1] == h[|h| - 1];
    assert h[|h|..] == [];
  }

  /**
   * With a monotone clock the deque stands for the full history: it is ascending, never longer than the limit,
   * and misses only entries older than the window.
   */
  lemma {:induction false} DequeRepresentsHistory(es: seq<Event>, key: string, now: real, limits: Limits)
    requires Clocked(es, now)
    ensures StandsFor(Queue(After(es, limits), key), History(es, key, limits), now, limits)
  {
    hide Represents; hide Checked; hide Since;
    if es == [] {
      Nothing(now, limits);
    } else {
      var init, e := es[..|es| - 1], es[|es| - 1];
      DequeRepresentsHistory(init, key, e.now, limits);
      var q, h := Queue(After(init, limits), key), History(init, key, limits);
      match e {
        case Check(k, t) => StandsForChecked(q, h, t, limits);
        case Cleanup(t) => if Stale(q, WindowStart(t, limits)) { StandsForCleaned(q, h, t, limits); }
        case Reset(k, t) => Nothing(t, limits);
      }
      StandsForLater(Queue(After(es, limits), key), History(es, key, limits), e.now, now, limits);
    }
  }

  lemma Nothing(now: real, limits: Limits)
    ensures StandsFor([], [], now, limits)
  {
  }

  /** Every decision, of any run, is the one taken on the complete history; cleanups never change one. */
  lemma DecisionRefinesHistory(es: seq<Event>, key: string, now: real, limits: Limits)
    requires Clocked(es, now)
    ensures VerdictAfter(es, key, now, limits) ==
      Decide(Since(History(es, key, limits), WindowStart(now, limits)), now, limits)
  {
    DequeRepresentsHistory(es, key, now, limits);
    var start := WindowStart(now, limits);
    EvictIsSince(Queue(After(es, limits), key), History(es, key, limits), start, start);
  }

  function WithoutCleanups(es: seq<Event>): (r: seq<Event>)
    ensures |r| <= |es| && forall e | e in r :: e in es
  {
    if es == [] then []
    else if es[|es| - 1].Cleanup? then WithoutCleanups(es[..|es| - 1])
    else WithoutCleanups(es[..|es| - 1]) + [es[|es| - 1]]
  }

  /** A run answers as it would have without its cleanups. */
  lemma CleanupChangesNoDecision(es: seq<Event>, key: string, now: real, limits: Limits)
    requires Clocked(es, now)
    ensures VerdictAfter(es, key, now, limits) == VerdictAfter(WithoutCleanups(es), key, now, limits)
  {
    SameHistory(es, key, now, limits);
    DecisionRefinesHistory(es, key, now, limits);
    DecisionRefinesHistory(WithoutCleanups(es), key, now, limits);
  }

  lemma {:induction false} SameHistory(es: seq<Event>, key: string, now: real, limits: Limits)
    requires Clocked(es, now)
    ensures Clocked(WithoutCleanups(es), now)
    ensures History(WithoutCleanups(es), key, limits) == History(es, key, limits)
  {
    if es != [] {
      var init, e := es[..|es| - 1], es[|es| - 1];
      SameHistory(init, key, e.now, limits);
      var r := WithoutCleanups(init);
      ClockedLater(r, e.now, now);
      hide Decide; hide Since;
      if !e.Cleanup? {
        assert WithoutCleanups(es) == r + [e];
        assert (r + [e])[..|r|] == r;
      }
    }
  }

  lemma ClockedLater(es: seq<Event>, before: real, now: real)
    requires Clocked(es, before) && before <= now
    ensures Clocked(es, now)
  {
  }

  // ----- Safety

  function CountWithin(h: seq<real>, lo: real, hi: real): nat {
    if h == [] then 0
    else CountWithin(h[..|h| - 1], lo, hi) + if lo <= h[|h| - 1] <= hi then 1 else 0
  }

  lemma {:induction false} CountNarrower(h: seq<real>, lo: real, hi: real, start: real)
    requires start <= lo
    ensures CountWithin(h, lo, hi) <= |Since(h, start)|
  {
    if h != [] {
      CountNarrower(h[..|h| - 1], lo, hi, start);
      SinceAppend(h[..|h| - 1], h[|h| - 1], start);
      assert h == h[..|h| - 1] + [h[|h| - 1]];
    }
  }

  lemma {:induction false} SinceAppend(h: seq<real>, t: real, start: real)
    ensures Since(h + [t], start) == if t >= start then Since(h, start) + [t] else Since(h, start)
  {
    if h == [] {
      assert h + [t] == [t];
    } else {
      assert (h + [t])[1..] == h[1..] + [t];
      SinceAppend(h[1..], t, start);
    }
  }

  /** The accepted times of key in a run, as the limiter answered them. */
  function Accepted(es: seq<Event>, key: string, limits: Limits): seq<real> {
    if es == [] then []
    else
      var init, e := es[..|es| - 1], es[|es| - 1];
      Accepted(init, key, limits) +
      if e.Check? && e.key == key && VerdictAfter(init, key, e.now, limits) == Allowed then [e.now] else []
  }

  lemma {:induction false} AcceptedIsHistory(es: seq<Event>, key: string, now: real, limits: Limits)
    requires Clocked(es, now) && forall e | e in es :: e.Reset? ==> e.key != key
    ensures Accepted(es, key, limits) == History(es, key, limits)
  {
    if es != [] {
      var init, e := es[..|es| - 1], es[|es| - 1];
      assert e in es;
      AcceptedIsHistory(init, key, e.now, limits);
      DecisionRefinesHistory(init, key, e.now, limits);
    }
  }

  /** No closed interval as long as the window holds more than max accepted times since the last reset. */
  lemma {:induction false} HistorySafe(es: seq<Event>, key: string, now: real, lo: real, limits: Limits)
    requires Clocked(es, now) && limits.max >= 0
    ensures CountWithin(History(es, key, limits), lo, lo + limits.window as real) <= limits.max
  {
    if es != [] {
      var init, e := es[..|es| - 1], es[|es| - 1];
      HistorySafe(init, key, e.now, lo, limits);
      var h, h' := History(init, key, limits), History(es, key, limits);
      if h' == h + [e.now] {
        assert h'[..|h|] == h;
        if lo <= e.now <= lo + limits.window as real {
          CountNarrower(h, lo, lo + limits.window as real, WindowStart(e.now, limits));
        }
      }
    }
  }

  /** Safety over runs: a key that is not reset gets at most max requests accepted in any interval of a window's length. */
  lemma WindowSafety(es: seq<Event>, key: string, now: real, lo: real, limits: Limits)
    requires Clocked(es, now) && limits.max >= 0 && forall e | e in es :: e.Reset? ==> e.key != key
    ensures CountWithin(Accepted(es, key, limits), lo, lo + limits.window as real) <= limits.max
  {
    AcceptedIsHistory(es, key, now, limits);
    HistorySafe(es, key, now, lo, limits);
  }

  // ----- The retry hint

  ghost predicate Leaves(es: seq<Event>, key: string) {
    forall e | e in es :: e.Cleanup? || e.key != key
  }

  lemma {:induction false} HistoryUntouched(es: seq<Event>, more: seq<Event>, key: string, limits: Limits)
    requires Leaves(more, key)
    ensures History(es + more, key, limits) == History(es, key, limits)
  {
    if more == [] {
      assert es + more == es;
    } else {
      var init, e := more[..|more| - 1], more[|more| - 1];
      assert e in more;
      HistoryUntouched(es, init, key, limits);
      assert (es + more)[..|es + more| - 1] == es + init;
    }
  }

  lemma {:induction false} CountAll(h: seq<real>, start: real, hi: real)
    requires forall t | t in h :: t <= hi
    ensures CountWithin(h, start, hi) == |Since(h, start)|
  {
    if h != [] {
      var init, t := h[..|h| - 1], h[|h| - 1];
      assert t in h && h == init + [t] && forall x | x in init :: x in h;
      CountAll(init, start, hi);
      SinceAppend(init, t, start);
    }
  }

  lemma {:induction false} SinceLater(h: seq<real>, start: real, later: real)
    requires start <= later
    ensures |Since(h, later)| <= |Since(h, start)|
    ensures Ascending(h) ==>
      var s := Since(h, start);
      |Since(h, later)| == |s| <==> s == [] || s[0] >= later
  {
    if h != [] {
      SinceLater(h[1..], start, later);
      if Ascending(h) && h[0] >= later {
        SinceSplit(h, later, 0);
        SinceSplit(h, start, 0);
      }
    }
  }

  // The same on a history that has max entries in the window that ends at now.
  lemma RetryOnHistory(h: seq<real>, now: real, t: real, limits: Limits)
    requires limits.max >= 1 && now <= t
    requires Ascending(h) && forall x | x in h :: x <= now
    requires |Since(h, WindowStart(now, limits))| == limits.max
    ensures var live := Since(h, WindowStart(now, limits));
      var hint := RetryHint(live[0], now, limits.window) as real;
      var retry := Decide(Since(h, WindowStart(t, limits)), t, limits);
      && Decide(live, now, limits) == Denied(RetryHint(live[0], now, limits.window))
      && (retry == Allowed <==> t > live[0] + limits.window as real)
      && (t >= now + hint + 1.0 ==> retry == Allowed)
      && (t == now + hint ==> (retry == Allowed <==> live[0] + limits.window as real - now < 1.0))
  {
    SinceLater(h, WindowStart(now, limits), WindowStart(t, limits));
    SinceFirst(h, WindowStart(now, limits));
    hide Since;
  }

  /**
   * After a denial, a lone retry is accepted exactly when the oldest accepted time of the window has left it. So
   * waiting one second more than the hint always suffices, and waiting just the hint does only when less than one
   * second was left.
   */
  lemma LoneRetry(es: seq<Event>, key: string, now: real, between: seq<Event>, t: real, limits: Limits)
    requires limits.max >= 1
    requires Clocked(es + [Check(key, now)] + between, t)
    requires Leaves(between, key)
    requires VerdictAfter(es, key, now, limits).Denied?
    ensures var live := Since(History(es, key, limits), WindowStart(now, limits));
      var hint := VerdictAfter(es, key, now, limits).retryAfter as real;
      var retry := VerdictAfter(es + [Check(key, now)] + between, key, t, limits);
      && |live| > 0
      && (retry == Allowed <==> t > live[0] + limits.window as real)
      && (t >= now + hint + 1.0 ==> retry == Allowed)
      && (t == now + hint ==> (retry == Allowed <==> live[0] + limits.window as real - now < 1.0))
  {
    hide Since; hide History; hide After; hide Evict; hide Queue; hide Clocked; hide Leaves;
    var denied, h, start := es + [Check(key, now)], History(es, key, limits), WindowStart(now, limits);
    ClockedPrefix(denied, between, t);
    ClockedPrefix(es, [Check(key, now)], if between == [] then t else between[0].now);
    DecisionRefinesHistory(es, key, now, limits);
    DecisionRefinesHistory(denied + between, key, t, limits);
    HistoryUntouched(denied, between, key, limits);
    DeniedKeepsHistory(es, key, now, limits);
    DequeRepresentsHistory(es, key, now, limits);
    CountAll(h, start, now);
    HistorySafe(es, key, now, start, limits);
    RetryOnHistory(h, now, t, limits);
  }

  lemma DeniedKeepsHistory(es: seq<Event>, key: string, now: real, limits: Limits)
    requires Clocked(es, now) && VerdictAfter(es, key, now, limits) != Allowed
    ensures History(es + [Check(key, now)], key, limits) == History(es, key, limits)
  {
    DecisionRefinesHistory(es, key, now, limits);
    assert (es + [Check(key, now)])[..|es|] == es;
  }

  lemma {:induction false} SinceFirst(h: seq<real>, start: real)
    ensures Since(h, start) != [] ==> Since(h, start)[0] >= start
  {
    if h != [] {
      SinceFirst(h[1..], start);
    }
  }

  lemma {:induction false} ClockedPrefix(es: seq<Event>, more: seq<Event>, now: real)
    requires Clocked(es + more, now)
    ensures Clocked(es, if more == [] then now else more[0].now)
    ensures Clocked(es, now) && (more != [] ==> more[0].now <= now)
  {
    if more == [] {
      assert es + more == es;
    } else {
      var init, e := more[..|more| - 1], more[|more| - 1];
      assert (es + more)[..|es + more| - 1] == es + init;
      ClockedPrefix(es, init, e.now);
      ClockedLater(es, e.now, now);
    }
  }

  /**
   * A run in which the hint falls short: one request a minute, checks at 0 and 0.5 seconds. The second is denied with a
   * hint of 59 seconds, and a retry just then is denied again.
   */
  lemma HintFallsShort(key: string)
    ensures var limits := Limits(1, 60);
      && VerdictAfter([Check(key, 0.0)], key, 0.5, limits) == Denied(59)
      && VerdictAfter([Check(key, 0.0), Check(key, 0.5)], key, 0.5 + 59.0, limits) == Denied(1)
  {
    var limits := Limits(1, 60);
    var one, two := [Check(key, 0.0)], [Check(key, 0.0), Check(key, 0.5)];
    assert one[..0] == [] && two[..1] == one;
    assert Queue(After(one, limits), key) == [0.0];
    assert Queue(After(two, limits), key) == [0.0];
  }
}
