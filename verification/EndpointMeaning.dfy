/** Endpoint rows in literal terms: scores, orders, and what each operation writes into which field. */
module EndpointMeaning {

  import opened Options
  import opened StableSort
  import opened Endpoints
  import opened EndpointRows
  import opened PromotionRuns

  // ----- Scores and orders

  /** The score, for a latency penalty of q points: one for every 10 ms. */
  lemma ScoreIs(reachable: bool, latencyMs: Option<int>, failures: int, successes: int, priority: int, q: int)
    requires match latencyMs case None => q == 0 case Some(v) => 10 * q <= v < 10 * q + 10
    ensures var points :=
        50 + (if reachable then 100 else 0) - (if priority < 100 then priority else 100) - q - 5 * failures + 2 * successes;
      Score(reachable, latencyMs, failures, successes, priority) ==
        if points < 0 then 0 else if points > 200 then 200 else points
  {
  }

  // The latency that counts: an unknown one and one of 0 ms are 9999 ms.
  function LatencyOf(e: Endpoint): int {
    match e.latencyMs
    case None => 9999
    case Some(v) => if v == 0 then 9999 else v
  }

  /** a is at least as good as b: by score, then reachability, then latency, then priority number. */
  predicate AsGood(a: Endpoint, b: Endpoint) {
    && a.score >= b.score
    && (a.score == b.score ==>
          && (b.reachable ==> a.reachable)
          && (a.reachable == b.reachable ==>
                && LatencyOf(a) <= LatencyOf(b)
                && (LatencyOf(a) == LatencyOf(b) ==> a.priority <= b.priority)))
  }

  lemma OrderIs(a: Endpoint, b: Endpoint)
    ensures RanksBefore(b, a) <==> !AsGood(a, b)
  {
  }

  /** The selected endpoint is as good as every other, and better than those that come before it. */
  lemma BestInFields(eps: seq<Endpoint>) returns (k: nat)
    requires eps != []
    ensures k < |eps| && SelectBest(eps) == Some(eps[k])
    ensures forall j | 0 <= j < |eps| :: AsGood(eps[k], eps[j]) && (j < k ==> !AsGood(eps[j], eps[k]))
  {
    RanksBeforeIsOrder();
    k := SortHeadIsFirst(eps, RanksBefore);
    forall j | 0 <= j < |eps| ensures AsGood(eps[k], eps[j]) && (j < k ==> !AsGood(eps[j], eps[k])) {
      OrderIs(eps[k], eps[j]);
      OrderIs(eps[j], eps[k]);
    }
    hide Sort; hide RanksBefore; hide AsGood;
  }

  /** The candidates are sorted: each is as good as all that follow. */
  lemma SortedInFields(eps: seq<Endpoint>)
    ensures multiset(SortCandidates(eps)) == multiset(eps)
    ensures forall i, j | 0 <= i < j < |eps| :: AsGood(SortCandidates(eps)[i], SortCandidates(eps)[j])
  {
    RanksBeforeIsOrder();
    SortIsStableSort(eps, RanksBefore);
    var r := SortCandidates(eps);
    forall i, j | 0 <= i < j < |eps| ensures AsGood(r[i], r[j]) {
      OrderIs(r[i], r[j]);
      assert !RanksBefore(r[j], r[i]);
    }
    hide Sort; hide RanksBefore; hide AsGood;
  }

  // The planner's order: by priority number, highest first, then most recently seen; never seen counts as time 0.
  predicate PlansAsGood(a: Endpoint, b: Endpoint) {
    && a.priority >= b.priority
    && (a.priority == b.priority ==>
          (if a.lastSeen.Some? then a.lastSeen.value else 0.0) >= (if b.lastSeen.Some? then b.lastSeen.value else 0.0))
  }

  /** What the planner picks among the active endpoints. */
  lemma PlannedInFields(eps: seq<Endpoint>) returns (k: nat)
    requires exists e | e in eps :: e.isActive
    ensures k < |eps| && eps[k].isActive && BestPlanned(eps) == (Some(eps[k].endpoint), Some(eps[k].port))
    ensures forall j | 0 <= j < |eps| && eps[j].isActive ::
      PlansAsGood(eps[k], eps[j]) && (j < k ==> !PlansAsGood(eps[j], eps[k]))
  {
    var active := Active(eps);
    ActiveContents(eps);
    PlannedBeforeIsOrder();
    var e :| e in eps && e.isActive;
    var m := SortHeadIsFirst(active, PlannedBefore);
    hide Sort;
    k := PlaceOfActive(eps, m);
    forall j | 0 <= j < |eps| && eps[j].isActive
      ensures PlansAsGood(eps[k], eps[j]) && (j < k ==> !PlansAsGood(eps[j], eps[k]))
    {
      var n := ActivePlace(eps, j);
      ActiveOrder(eps, j, n, k, m);
      assert n < m ==> PlannedBefore(active[m], active[n]);
      assert n > m ==> !PlannedBefore(active[n], active[m]);
    }
  }

  // The place in the list of the m-th active endpoint, and back; Count tells how many active ones come before.
  function Count(eps: seq<Endpoint>, k: nat): nat
    requires k <= |eps|
  {
    |Active(eps[..k])|
  }

  lemma {:induction false} ActiveSplit(eps: seq<Endpoint>, k: nat)
    requires k <= |eps|
    ensures Active(eps) == Active(eps[..k]) + Active(eps[k..])
  {
    if k == 0 {
      assert eps[..0] == [] && eps[0..] == eps;
    } else {
      ActiveSplit(eps[1..], k - 1);
      assert eps[..k][1..] == eps[1..][..k - 1] && eps[1..][k - 1..] == eps[k..];
    }
  }

  lemma ActivePlace(eps: seq<Endpoint>, j: nat) returns (n: nat)
    requires j < |eps| && eps[j].isActive
    ensures n == Count(eps, j) && n < |Active(eps)| && Active(eps)[n] == eps[j]
  {
    ActiveSplit(eps, j);
    n := Count(eps, j);
    assert eps[j..][0] == eps[j];
  }

  lemma {:induction false} PlaceOfActive(eps: seq<Endpoint>, m: nat) returns (k: nat)
    requires m < |Active(eps)|
    ensures k < |eps| && eps[k].isActive && Count(eps, k) == m && Active(eps)[m] == eps[k]
  {
    if eps[0].isActive && m == 0 {
      k := 0;
      assert eps[..0] == [];
    } else {
      k := PlaceOfActive(eps[1..], if eps[0].isActive then m - 1 else m);
      assert eps[..k + 1][1..] == eps[1..][..k];
      k := k + 1;
    }
  }

  lemma ActiveOrder(eps: seq<Endpoint>, j: nat, n: nat, k: nat, m: nat)
    requires j < |eps| && k < |eps| && eps[j].isActive && eps[k].isActive && n == Count(eps, j) && m == Count(eps, k)
    ensures j < k ==> n < m
    ensures k < j ==> m < n
    ensures j == k ==> n == m
  {
    if j < k {
      Further(eps, j, k);
    } else if k < j {
      Further(eps, k, j);
    }
  }

  lemma Further(eps: seq<Endpoint>, j: nat, k: nat)
    requires j < k < |eps| && eps[j].isActive
    ensures Count(eps, j) < Count(eps, k)
  {
    ActiveSplit(eps[..k], j);
    assert eps[..k][..j] == eps[..j] && eps[..k][j..][0] == eps[j];
  }

  // ----- One row matches

  ghost predicate Unique(rows: Rows, p: Endpoint -> bool, k: nat) {
    k < |rows| && forall i | 0 <= i < |rows| :: p(rows[i]) <==> i == k
  }

  lemma UniqueIs(rows: Rows, p: Endpoint -> bool, k: nat)
    requires Unique(rows, p, k)
    ensures CountRows(rows, p) == 1 && FirstRow(rows, p) == k
  {
    CountIff(rows, p);
    assert p(rows[k]);
    var i := FirstRow(rows, p);
    assert p(rows[i]);
  }

  // ----- Reports

  /** A report for a known device adds one active row with these fields; for an unknown one it is refused. */
  lemma ReportIs(devices: set<string>, rows: Rows, op: RowOp)
    requires op.Report?
    ensures op.deviceId !in devices ==> Apply(devices, rows, op) == (rows, NoDevice)
    ensures op.deviceId in devices ==>
      Apply(devices, rows, op) == (
        rows + [Endpoint(op.id, op.deviceId, op.endpoint, op.port, op.source, op.priority, true, Some(op.now), false, None, 0, 0, 0)],
        Done(op.id, 0, false))
  {
  }

  // ----- Probe results

  /** A probe raises exactly when two rows of the device have the endpoint, whatever their ports and states. */
  lemma ProbeRaisesIff(devices: set<string>, rows: Rows, op: RowOp)
    requires op.Probe?
    ensures Apply(devices, rows, op).1 == ManyRows <==>
      exists i, j | 0 <= i < j < |rows| ::
        && rows[i].deviceId == rows[j].deviceId == op.deviceId
        && rows[i].endpoint == rows[j].endpoint == op.endpoint
    ensures Apply(devices, rows, op).1 == ManyRows ==> Apply(devices, rows, op).0 == rows
  {
    var p := ProbedRows(op.deviceId, op.endpoint);
    CountIff(rows, p);
    if i, j :|
        0 <= i < j < |rows| && rows[i].deviceId == rows[j].deviceId == op.deviceId
        && rows[i].endpoint == rows[j].endpoint == op.endpoint {
      assert p(rows[i]) && p(rows[j]);
    }
    hide CountRows; hide FirstRow; hide Score; hide IsPreferred; hide ActiveRows;
  }

  /** A probe of the one row that matches: only these fields change, and one counter goes up by one. */
  lemma ProbeUpdates(devices: set<string>, rows: Rows, op: RowOp, k: nat)
    requires op.Probe? && k < |rows|
    requires forall i | 0 <= i < |rows| :: rows[i].deviceId == op.deviceId && rows[i].endpoint == op.endpoint <==> i == k
    ensures var (rows', o) := Apply(devices, rows, op);
      var e, f := rows[k], rows'[k];
      && rows' == rows[k := f] && o.Done? && o.id == e.id && o.score == f.score
      && f.reachable == op.reachable && f.latencyMs == op.latencyMs && f.lastSeen == Some(op.now)
      && f.successCount == e.successCount + (if op.reachable then 1 else 0)
      && f.failureCount == e.failureCount + (if op.reachable then 0 else 1)
      && f.score == Score(op.reachable, op.latencyMs, f.failureCount, f.successCount, e.priority)
      && (f.id, f.deviceId, f.endpoint, f.port) == (e.id, e.deviceId, e.endpoint, e.port)
      && (f.source, f.priority, f.isActive) == (e.source, e.priority, e.isActive)
  {
    UniqueIs(rows, ProbedRows(op.deviceId, op.endpoint), k);
    hide CountRows; hide FirstRow; hide Score; hide IsPreferred; hide ActiveRows;
  }

  /** A probe that no row matches adds a row for a known device: active, with priority 100 and one counter at 1. */
  lemma ProbeAdds(devices: set<string>, rows: Rows, op: RowOp)
    requires op.Probe?
    requires forall i | 0 <= i < |rows| :: !(rows[i].deviceId == op.deviceId && rows[i].endpoint == op.endpoint)
    ensures op.deviceId !in devices ==> Apply(devices, rows, op) == (rows, NoDevice)
    ensures op.deviceId in devices ==>
      var (rows', o) := Apply(devices, rows, op);
      && |rows'| == |rows| + 1 && rows'[..|rows|] == rows && o.Done? && o.id == op.id
      && var f := rows'[|rows|];
         && o.score == f.score
         && (f.id, f.deviceId, f.endpoint, f.port, f.source) == (op.id, op.deviceId, op.endpoint, op.port, op.source)
         && (f.priority, f.isActive, f.lastSeen) == (100, true, Some(op.now))
         && (f.reachable, f.latencyMs) == (op.reachable, op.latencyMs)
         && (f.successCount, f.failureCount) == (if op.reachable then (1, 0) else (0, 1))
         && f.score == Score(op.reachable, op.latencyMs, f.failureCount, f.successCount, 100)
  {
    var p := ProbedRows(op.deviceId, op.endpoint);
    CountIff(rows, p);
    assert forall i | 0 <= i < |rows| :: !p(rows[i]);
    hide CountRows; hide FirstRow; hide Score; hide IsPreferred; hide ActiveRows;
  }

  /** A probe answers preferred if and only if its row is active and as good as all active rows of its device. */
  lemma ProbePreferredIff(devices: set<string>, rows: Rows, op: RowOp, k: nat)
    requires op.Probe? && Good(rows) && FreshId(rows, op)
    requires var (rows', o) := Apply(devices, rows, op); o.Done? && k < |rows'| && rows'[k].id == o.id
    ensures var (rows', o) := Apply(devices, rows, op); o.preferred <==> rows'[k].isActive && BestOfDevice(rows', k)
  {
    var (rows', o) := Apply(devices, rows, op);
    StepKeepsGood(devices, rows, op);
    ProbedDevice(devices, rows, op, k);
    PreferredByList(rows', k);
    hide Apply; hide Good; hide IsPreferred;
  }

  /** The row is as good as every active row of its device, and better than those before it. */
  predicate BestOfDevice(rows: Rows, k: nat)
    requires k < |rows|
  {
    forall j | 0 <= j < |rows| && rows[j].deviceId == rows[k].deviceId && rows[j].isActive ::
      AsGood(rows[k], rows[j]) && (j < k ==> !AsGood(rows[j], rows[k]))
  }

  lemma ProbedDevice(devices: set<string>, rows: Rows, op: RowOp, k: nat)
    requires op.Probe? && Good(rows) && FreshId(rows, op)
    requires var (rows', o) := Apply(devices, rows, op); o.Done? && k < |rows'| && rows'[k].id == o.id
    ensures var (rows', o) := Apply(devices, rows, op);
      rows'[k].deviceId == op.deviceId && o.preferred == IsPreferred(ActiveRows(rows', op.deviceId), o.id)
  {
    hide CountRows; hide FirstRow; hide Score; hide IsPreferred; hide ActiveRows;
  }

  lemma PreferredByList(rows: Rows, k: nat)
    requires k < |rows| && forall i, j | 0 <= i < j < |rows| :: rows[i].id != rows[j].id
    ensures IsPreferred(ActiveRows(rows, rows[k].deviceId), rows[k].id) <==> rows[k].isActive && BestOfDevice(rows, k)
  {
    var active := ActiveRows(rows, rows[k].deviceId);
    SelectAfterScore(active, rows[k].id);
    ActiveRowsAre(rows, rows[k].deviceId);
    if rows[k].isActive {
      BestIffOutranks(rows, k);
      OutranksInFields(rows, k);
      hide Sort; hide OutranksAll; hide BestOfDevice;
    } else if active != [] {
      SelectBestIsBest(active);
      SameIdSameRow(rows, k, SelectBest(active).value);
      hide Sort; hide OutranksAll; hide BestOfDevice;
    }
    hide ActiveRows;
  }

  lemma OutranksInFields(rows: Rows, k: nat)
    requires k < |rows|
    ensures OutranksAll(rows, k) <==> BestOfDevice(rows, k)
  {
    forall j | 0 <= j < |rows|
      ensures (RanksBefore(rows[j], rows[k]) <==> !AsGood(rows[k], rows[j]))
        && (RanksBefore(rows[k], rows[j]) <==> !AsGood(rows[j], rows[k]))
        && (!AsGood(rows[j], rows[k]) ==> AsGood(rows[k], rows[j])) && AsGood(rows[k], rows[k])
    {
      OrderIs(rows[k], rows[j]);
      OrderIs(rows[j], rows[k]);
    }
    hide RanksBefore; hide AsGood;
  }

  // ----- Promotions

  /** A promotion of the one active row that matches: what it writes, and when it answers preferred. */
  lemma PromotionUpdates(rows: Rows, k: nat, latencyMs: Option<int>)
    requires Good(rows) && k < |rows| && rows[k].isActive
    requires forall i | 0 <= i < |rows| && i != k ::
      !(rows[i].deviceId == rows[k].deviceId && rows[i].endpoint == rows[k].endpoint && rows[i].port == rows[k].port
        && rows[i].isActive)
    ensures var (rows', o) := ApplyPromote(rows, rows[k].deviceId, rows[k].endpoint, rows[k].port, latencyMs);
      var e := rows[k];
      && o.Done? && o.id == e.id && |rows'| == |rows|
      && var f := rows'[k];
         && o.score == f.score && f.reachable && f.isActive
         && f.successCount == e.successCount + 1 && f.failureCount == e.failureCount
         && f.latencyMs == (if latencyMs.Some? then latencyMs else e.latencyMs)
         && (e.score == 0 ==> f.score == Score(true, latencyMs, e.failureCount, e.successCount + 1, e.priority))
         && (e.score != 0 ==> f.score == if e.score + 30 > 200 then 200 else e.score + 30)
         && (f.id, f.deviceId, f.endpoint, f.port) == (e.id, e.deviceId, e.endpoint, e.port)
         && (f.source, f.priority, f.lastSeen) == (e.source, e.priority, e.lastSeen)
         && (o.preferred <==> BestOfDevice(rows[k := f], k))
         && forall i | 0 <= i < |rows| && i != k ::
              rows'[i] == if o.preferred && rows[i].deviceId == e.deviceId then rows[i].(isActive := false) else rows[i]
  {
    hide CountRows; hide FirstRow; hide Score; hide IsPreferred; hide ActiveRows; hide Sort; hide OutranksAll;
    hide BestOfDevice; hide Good;
    PromotionIs(rows, k, latencyMs);
    DistinctIds(rows);
    PreferredIff(rows, k, latencyMs);
    OutranksInFields(rows[k := Promoted(rows[k], latencyMs)], k);
    hide ApplyPromote;
  }

  lemma DistinctIds(rows: Rows)
    requires Good(rows)
    ensures forall i, j | 0 <= i < j < |rows| :: rows[i].id != rows[j].id
  {
  }

  // The promotion of row k in the model's own terms.
  lemma PromotionIs(rows: Rows, k: nat, latencyMs: Option<int>)
    requires k < |rows| && rows[k].isActive
    requires forall i | 0 <= i < |rows| && i != k ::
      !(rows[i].deviceId == rows[k].deviceId && rows[i].endpoint == rows[k].endpoint && rows[i].port == rows[k].port
        && rows[i].isActive)
    ensures var (rows', o) := ApplyPromote(rows, rows[k].deviceId, rows[k].endpoint, rows[k].port, latencyMs);
      var e := Promoted(rows[k], latencyMs);
      && o.Done? && o.id == rows[k].id && o.score == e.score
      && rows' == if o.preferred then OnlyActive(rows[k := e], rows[k].deviceId, rows[k].id) else rows[k := e]
  {
    UniqueIs(rows, PromotableRows(rows[k].deviceId, rows[k].endpoint, rows[k].port), k);
    hide CountRows; hide FirstRow; hide Score; hide IsPreferred; hide ActiveRows; hide Sort; hide OnlyActive;
  }

  /** A promotion finds no row exactly when no active row of the device has the endpoint and port, and raises with two. */
  lemma PromotionFinds(rows: Rows, deviceId: string, endpoint: string, port: int, latencyMs: Option<int>)
    ensures var (rows', o) := ApplyPromote(rows, deviceId, endpoint, port, latencyMs);
      && (o == NoRow <==> forall i | 0 <= i < |rows| ::
            !(rows[i].deviceId == deviceId && rows[i].endpoint == endpoint && rows[i].port == port && rows[i].isActive))
      && (o == ManyRows <==> exists i, j | 0 <= i < j < |rows| ::
            && rows[i].deviceId == rows[j].deviceId == deviceId && rows[i].endpoint == rows[j].endpoint == endpoint
            && rows[i].port == rows[j].port == port && rows[i].isActive && rows[j].isActive)
      && (!o.Done? ==> rows' == rows)
  {
    var p := PromotableRows(deviceId, endpoint, port);
    PromotionOutcome(rows, deviceId, endpoint, port, latencyMs);
    FailedPromotion(rows, deviceId, endpoint, port, latencyMs);
    hide ApplyPromote;
    assert forall i | 0 <= i < |rows| :: p(rows[i]) <==>
      rows[i].deviceId == deviceId && rows[i].endpoint == endpoint && rows[i].port == port && rows[i].isActive;
  }

  // ----- Sweeps

  /** A sweep deactivates exactly the active rows last seen before the cutoff; a row never seen stays. */
  lemma SweepIs(devices: set<string>, rows: Rows, cutoff: real)
    ensures var rows' := Apply(devices, rows, Stale(cutoff)).0;
      && |rows'| == |rows|
      && forall i | 0 <= i < |rows| ::
           rows'[i] == rows[i].(isActive := rows[i].isActive && !(rows[i].lastSeen.Some? && rows[i].lastSeen.value < cutoff))
  {
  }

  /** The number that a sweep answers. */
  lemma SweepCounts(rows: Rows, cutoff: real)
    ensures CountRows(rows, StaleRows(cutoff)) ==
      |set i | 0 <= i < |rows| && rows[i].isActive && rows[i].lastSeen.Some? && rows[i].lastSeen.value < cutoff|
  {
    CountIsSize(rows, StaleRows(cutoff));
    var p := StaleRows(cutoff);
    assert Matching(rows, p) ==
      set i | 0 <= i < |rows| && rows[i].isActive && rows[i].lastSeen.Some? && rows[i].lastSeen.value < cutoff;
  }

  lemma {:induction false} CountIsSize(rows: Rows, p: Endpoint -> bool)
    ensures CountRows(rows, p) == |Matching(rows, p)|
  {
    if rows == [] {
      assert Matching(rows, p) == {};
    } else {
      var n := |rows| - 1;
      CountIsSize(rows[..n], p);
      OneMoreRow(rows[..n], rows[n], p);
      assert rows == rows[..n] + [rows[n]];
      hide Matching;
    }
  }

  lemma OneMoreRow(rows: Rows, e: Endpoint, p: Endpoint -> bool)
    ensures Matching(rows + [e], p) == Matching(rows, p) + (if p(e) then {|rows|} else {})
    ensures |rows| !in Matching(rows, p)
  {
    assert forall i | 0 <= i < |rows| :: (rows + [e])[i] == rows[i];
  }

  // The places of the rows that match.
  function Matching(rows: Rows, p: Endpoint -> bool): set<nat> {
    set i: nat | i < |rows| && p(rows[i])
  }

  /** Over every run scores are between 0 and 200, counters are not negative, and no two rows have one id. */
  lemma RowsAre(devices: set<string>, ops: seq<RowOp>, i: nat, j: nat)
    requires FreshRun(devices, ops) && i < |Run(devices, ops)| && j < |Run(devices, ops)|
    ensures var e, f := Run(devices, ops)[i], Run(devices, ops)[j];
      && 0 <= e.score <= 200 && e.successCount >= 0 && e.failureCount >= 0
      && (i != j ==> e.id != f.id)
  {
    assert ops + [] == ops;
    RowsStayGood(devices, ops, []);
    hide Run; hide FreshRun;
  }

  // ----- Counters over runs

  /** How many operations of a run counted for a row: probes with this result, and for successes promotions too. */
  function Tally(devices: set<string>, ops: seq<RowOp>, id: string, success: bool): nat {
    if ops == [] then 0
    else
      var init, op := ops[..|ops| - 1], ops[|ops| - 1];
      var o := Apply(devices, Run(devices, init), op).1;
      Tally(devices, init, id, success)
      + if o.Done? && o.id == id && ((op.Probe? && op.reachable == success) || (op.Promote? && success)) then 1 else 0
  }

  /** Over every run a row's counters are the numbers of successes and failures reported for it. */
  lemma {:induction false} CountersAreTallied(devices: set<string>, ops: seq<RowOp>, id: string)
    requires FreshRun(devices, ops)
    ensures forall i | 0 <= i < |Run(devices, ops)| && Run(devices, ops)[i].id == id ::
      && Run(devices, ops)[i].successCount == Tally(devices, ops, id, true)
      && Run(devices, ops)[i].failureCount == Tally(devices, ops, id, false)
    ensures (forall i | 0 <= i < |Run(devices, ops)| :: Run(devices, ops)[i].id != id) ==>
      Tally(devices, ops, id, true) == Tally(devices, ops, id, false) == 0
  {
    hide Apply; hide Good; hide FreshId;
    if ops != [] {
      var init, op := ops[..|ops| - 1], ops[|ops| - 1];
      CountersAreTallied(devices, init, id);
      PrefixIsFresh(devices, ops, |ops| - 1);
      CounterStep(devices, Run(devices, init), op, id);
    }
  }

  // One operation on the counters of the row with the id.
  lemma CounterStep(devices: set<string>, rows: Rows, op: RowOp, id: string)
    requires Good(rows) && FreshId(rows, op)
    ensures var (rows', o) := Apply(devices, rows, op);
      var s := if o.Done? && o.id == id && ((op.Probe? && op.reachable) || op.Promote?) then 1 else 0;
      var f := if o.Done? && o.id == id && op.Probe? && !op.reachable then 1 else 0;
      && |rows| <= |rows'|
      && (forall i | 0 <= i < |rows| && rows'[i].id == id ::
            && rows[i].id == id && rows'[i].successCount == rows[i].successCount + s
            && rows'[i].failureCount == rows[i].failureCount + f)
      && (forall i | |rows| <= i < |rows'| && rows'[i].id == id ::
            && rows'[i].successCount == s && rows'[i].failureCount == f
            && forall j | 0 <= j < |rows| :: rows[j].id != id)
      && ((forall i | 0 <= i < |rows'| :: rows'[i].id != id) ==> s == f == 0 && forall i | 0 <= i < |rows| :: rows[i].id != id)
  {
    StepKeepsGood(devices, rows, op);
    var rows' := Apply(devices, rows, op).0;
    assert forall i | 0 <= i < |rows| :: Grows(rows[i], rows'[i]) && rows'[i].id == rows[i].id;
    match op {
      case Report(_, _, _, _, _, _, _) =>
      case Stale(_) =>
      case Probe(_, _, _, _, _, _, _, _) =>
        ProbeCounters(devices, rows, op, id);
        assert Apply(devices, rows, op) == ApplyProbe(devices, rows, op);
      case Promote(deviceId, endpoint, port, latencyMs) =>
        PromoteCounters(rows, deviceId, endpoint, port, latencyMs, id);
        assert Apply(devices, rows, op) == ApplyPromote(rows, deviceId, endpoint, port, latencyMs);
    }
    NamesNone(rows, rows', id);
    hide ApplyProbe; hide ApplyPromote; hide Score;
  }

  lemma NamesNone(rows: Rows, rows': Rows, id: string)
    requires |rows| <= |rows'| && forall i | 0 <= i < |rows| :: rows'[i].id == rows[i].id
    ensures (forall i | 0 <= i < |rows'| :: rows'[i].id != id) ==> forall i | 0 <= i < |rows| :: rows[i].id != id
  {
    if forall i | 0 <= i < |rows'| :: rows'[i].id != id {
      forall i | 0 <= i < |rows| ensures rows[i].id != id {
        assert rows'[i].id != id;
      }
    }
  }

  lemma ProbeCounters(devices: set<string>, rows: Rows, op: RowOp, id: string)
    requires op.Probe? && Good(rows) && FreshId(rows, op)
    ensures var (rows', o) := ApplyProbe(devices, rows, op);
      var s := if o.Done? && o.id == id && op.reachable then 1 else 0;
      var f := if o.Done? && o.id == id && !op.reachable then 1 else 0;
      && |rows| <= |rows'|
      && (forall i | 0 <= i < |rows| && rows'[i].id == id ::
            && rows[i].id == id && rows'[i].successCount == rows[i].successCount + s
            && rows'[i].failureCount == rows[i].failureCount + f)
      && (forall i | |rows| <= i < |rows'| && rows'[i].id == id ::
            && rows'[i].successCount == s && rows'[i].failureCount == f
            && forall j | 0 <= j < |rows| :: rows[j].id != id)
      && ((forall i | 0 <= i < |rows'| :: rows'[i].id != id) ==> s == f == 0 && forall i | 0 <= i < |rows| :: rows[i].id != id)
  {
    hide Score; hide IsPreferred; hide CountRows; hide FirstRow; hide ActiveRows; hide ProbedRows;
    var (rows', o) := ApplyProbe(devices, rows, op);
    if o.Done? {
      var p := ProbedRows(op.deviceId, op.endpoint);
      var k := if CountRows(rows, p) == 0 then |rows| else FirstRow(rows, p);
      assert rows'[k].id == o.id;
    }
  }

  lemma PromoteCounters(rows: Rows, deviceId: string, endpoint: string, port: int, latencyMs: Option<int>, id: string)
    requires Good(rows)
    ensures var (rows', o) := ApplyPromote(rows, deviceId, endpoint, port, latencyMs);
      var s := if o.Done? && o.id == id then 1 else 0;
      && |rows| == |rows'|
      && (forall i | 0 <= i < |rows| ::
            && rows'[i].id == rows[i].id && rows'[i].failureCount == rows[i].failureCount
            && (rows[i].id == id ==> rows'[i].successCount == rows[i].successCount + s))
      && ((forall i | 0 <= i < |rows'| :: rows'[i].id != id) ==> s == 0)
  {
    hide Score; hide IsPreferred; hide CountRows; hide FirstRow; hide ActiveRows; hide Sort; hide PromotableRows;
  }
}
