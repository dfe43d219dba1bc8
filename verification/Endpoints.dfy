/** Device endpoint rows, and the orders in which the backend ranks them. */
module Endpoints {

  import opened Options
  import opened StableSort

  const BASE_SCORE := 50
  const SCORE_MAX := 200
  const UNKNOWN_LATENCY := 9999

  datatype Endpoint = Endpoint(
    id: string,
    deviceId: string,
    endpoint: string,
    port: int,
    source: string,
    priority: int,
    isActive: bool,
    lastSeen: Option<real>,
    reachable: bool,
    latencyMs: Option<int>,
    failureCount: int,
    successCount: int,
    score: int)

  function Min(a: int, b: int): int {
    if a < b then a else b
  }

  function Max(a: int, b: int): int {
    if a < b then b else a
  }

  /** compute_endpoint_score; // rounds down, as / does here for the positive divisor. */
  method ComputeScore(reachable: bool, latencyMs: Option<int>, failureCount: int, successCount: int, priority: int)
    returns (result: int)
    ensures result == Score(reachable, latencyMs, failureCount, successCount, priority)
  {
    var score := BASE_SCORE;
    if reachable {
      score := score + 100;
    }
    score := score - Min(priority, 100);
    if latencyMs.Some? {
      score := score - latencyMs.value / 10;
    }
    score := score - failureCount * 5;
    score := score + successCount * 2;
    result := Max(0, Min(score, SCORE_MAX));
  }

  function Score(reachable: bool, latencyMs: Option<int>, failureCount: int, successCount: int, priority: int): (r: int)
    ensures 0 <= r <= SCORE_MAX
  {
    var bonus := if reachable then 100 else 0;
    var penalty := if latencyMs.Some? then latencyMs.value / 10 else 0;
    Max(0, Min(BASE_SCORE + bonus - Min(priority, 100) - penalty - failureCount * 5 + successCount * 2, SCORE_MAX))
  }

  /**
   * A better probe never scores lower: reachability, more successes, fewer failures, a lower latency and a lower
   * priority number all help, and an unknown latency is never penalised against one that is not negative.
   */
  lemma ScoreMonotone(e: Endpoint, f: Endpoint)
    requires f.reachable ==> e.reachable
    requires match (e.latencyMs, f.latencyMs)
      case (None, None) => true
      case (None, Some(y)) => y >= 0
      case (Some(x), None) => x < 10
      case (Some(x), Some(y)) => x <= y
    requires e.failureCount <= f.failureCount && e.successCount >= f.successCount && e.priority <= f.priority
    ensures Score(e.reachable, e.latencyMs, e.failureCount, e.successCount, e.priority) >=
            Score(f.reachable, f.latencyMs, f.failureCount, f.successCount, f.priority)
  {
  }

  // ----- The candidate order of config-v2

  // latency_ms or 9999: an unknown latency and a latency of 0 both count as 9999.
  function RankedLatency(e: Endpoint): int {
    if e.latencyMs.Some? && e.latencyMs.value != 0 then e.latencyMs.value else UNKNOWN_LATENCY
  }

  /** Whether a's sort key is greater than b's, in which case the descending sort puts a first. */
  predicate RanksBefore(a: Endpoint, b: Endpoint) {
    if a.score != b.score then a.score > b.score
    else if a.reachable != b.reachable then a.reachable
    else if RankedLatency(a) != RankedLatency(b) then RankedLatency(a) < RankedLatency(b)
    else a.priority < b.priority
  }

  lemma RanksBeforeIsOrder()
    ensures StrictWeakOrder(RanksBefore)
  {
  }

  function SortCandidates(eps: seq<Endpoint>): (r: seq<Endpoint>)
    ensures |r| == |eps|
  {
    Sort(eps, RanksBefore)
  }

  function SelectBest(eps: seq<Endpoint>): Option<Endpoint> {
    if eps == [] then None else Some(SortCandidates(eps)[0])
  }

  /** The selected endpoint is one of those given, and none of them ranks before it. */
  lemma SelectBestIsBest(eps: seq<Endpoint>)
    requires eps != []
    ensures SelectBest(eps).value in eps
    ensures forall e | e in eps :: !RanksBefore(e, SelectBest(eps).value)
  {
    RanksBeforeIsOrder();
    SortHead(eps, RanksBefore);
  }

  /** A candidate measured at 0 ms ranks behind an otherwise equal one at any latency below 9999 ms. */
  lemma ZeroLatencyRanksLast(e: Endpoint, latency: int)
    ensures RanksBefore(e.(latencyMs := Some(latency)), e.(latencyMs := Some(0))) <==> latency < UNKNOWN_LATENCY && latency != 0
  {
  }

  // ----- The order of the topology planner

  function SeenKey(e: Endpoint): real {
    if e.lastSeen.Some? then e.lastSeen.value else 0.0
  }

  predicate PlannedBefore(a: Endpoint, b: Endpoint) {
    if a.priority != b.priority then a.priority > b.priority else SeenKey(a) > SeenKey(b)
  }

  lemma PlannedBeforeIsOrder()
    ensures StrictWeakOrder(PlannedBefore)
  {
  }

  function Active(eps: seq<Endpoint>): seq<Endpoint> {
    if eps == [] then []
    else (if eps[0].isActive then [eps[0]] else []) + Active(eps[1..])
  }

  /** _best_endpoint: the address and port of the highest priority, then most recently seen, active endpoint. */
  function BestPlanned(eps: seq<Endpoint>): (r: (Option<string>, Option<int>))
    ensures r.0.Some? ==> eps != []
  {
    var active := Active(eps);
    if active == [] then (None, None)
    else
      var best := Sort(active, PlannedBefore)[0];
      (Some(best.endpoint), Some(best.port))
  }

  lemma {:induction false} ActiveContents(eps: seq<Endpoint>)
    ensures forall e :: e in Active(eps) <==> e in eps && e.isActive
  {
    if eps != [] {
      ActiveContents(eps[1..]);
    }
  }

  /** What the planner picks is an active endpoint that no active endpoint precedes; it picks none if none is active. */
  lemma BestPlannedIsBest(eps: seq<Endpoint>)
    ensures BestPlanned(eps).0.None? <==> forall e | e in eps :: !e.isActive
    ensures BestPlanned(eps).0.Some? ==>
      exists e | e in eps && e.isActive ::
        && BestPlanned(eps) == (Some(e.endpoint), Some(e.port))
        && forall f | f in eps && f.isActive :: !PlannedBefore(f, e)
  {
    ActiveContents(eps);
    var active := Active(eps);
    if active != [] {
      assert active[0] in active;
      PlannedBeforeIsOrder();
      SortHead(active, PlannedBefore);
    }
  }
}
