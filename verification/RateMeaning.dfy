/** One check, cleanup or reset of the rate limiter in literal terms. */
module RateMeaning {

  import opened RateLimiter

  /** The entries that are left after evicting: those from the first one on that is not before the start. */
  lemma {:induction false} EvictIs(q: seq<real>, start: real) returns (n: nat)
    ensures n <= |q| && Evict(q, start) == q[n..]
    ensures (forall i | 0 <= i < n :: q[i] < start) && (n < |q| ==> q[n] >= start)
  {
    n := 0;
    if q != [] && q[0] < start {
      n := EvictIs(q[1..], start);
      n := n + 1;
    }
  }

  /**
   * A check looks at the entries left when those before now - window are evicted. It accepts when there are fewer than
   * max, and remembers the time. Otherwise the hint is the whole number of seconds until the first of them is a window
   * old, and at least 1; with none left, which a limit of 0 or less makes possible, there is an exception.
   */
  lemma CheckIs(q: seq<real>, now: real, limits: Limits) returns (n: nat)
    ensures n <= |q|
    ensures (forall i | 0 <= i < n :: q[i] < now - limits.window as real) && (n < |q| ==> q[n] >= now - limits.window as real)
    ensures var v := Decide(Evict(q, WindowStart(now, limits)), now, limits);
      && (|q| - n < limits.max ==> v == Allowed && Checked(q, now, limits) == q[n..] + [now])
      && (|q| - n >= limits.max ==> v != Allowed && Checked(q, now, limits) == q[n..])
      && (|q| - n >= limits.max && n == |q| ==> v == Failed)
      && (|q| - n >= limits.max && n < |q| ==>
            && v.Denied?
            && var left := q[n] + limits.window as real - now;
               if left < 1.0 then v.retryAfter == 1
               else v.retryAfter as real <= left < v.retryAfter as real + 1.0)
  {
    n := EvictIs(q, WindowStart(now, limits));
  }

  /** A cleanup forgets exactly the keys whose newest entry is before now - window; a key without entries stays. */
  lemma CleanupIs(clients: Clients, now: real, limits: Limits, key: string)
    ensures var clients' := Step(clients, Cleanup(now), limits);
      && (key in clients' <==>
            key in clients && (clients[key] == [] || clients[key][|clients[key]| - 1] >= now - limits.window as real))
      && (key in clients' ==> clients'[key] == clients[key])
  {
  }

  /** A check touches its own key only; a reset forgets it. */
  lemma OwnKeyOnly(clients: Clients, key: string, other: string, now: real, limits: Limits)
    requires key != other
    ensures var c, r := Step(clients, Check(key, now), limits), Step(clients, Reset(key, now), limits);
      && (other in c <==> other in clients) && (other in r <==> other in clients)
      && (other in clients ==> c[other] == r[other] == clients[other])
      && key in c && c[key] == Checked(if key in clients then clients[key] else [], now, limits) && key !in r
  {
  }
}
