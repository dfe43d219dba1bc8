/** The table of device endpoints: reports, probe results, promotion of a direct path, and stale cleanup. */
module EndpointRows {

  import opened Options
  import opened StableSort
  import opened Endpoints

  type Rows = seq<Endpoint>

  const DEFAULT_PRIORITY := 100

  // ManyRows stands for the exception of scalar_one_or_none; NoDevice for a 404 or a foreign key violation.
  datatype Outcome = Done(id: string, score: int, preferred: bool) | NoRow | ManyRows | NoDevice

  datatype RowOp =
    | Report(id: string, deviceId: string, endpoint: string, port: int, source: string, priority: int, now: real)
    | Probe(id: string, deviceId: string, endpoint: string, reachable: bool, latencyMs: Option<int>, source: string, port: int, now: real)
    | Promote(deviceId: string, endpoint: string, port: int, latencyMs: Option<int>)
    | Stale(cutoff: real)

  // How many rows a query selects, and the position of the first.
  function CountRows(rows: Rows, p: Endpoint -> bool): nat {
    if rows == [] then 0
    else CountRows(rows[..|rows| - 1], p) + if p(rows[|rows| - 1]) then 1 else 0
  }

  function FirstRow(rows: Rows, p: Endpoint -> bool): (i: nat)
    requires CountRows(rows, p) > 0
    ensures i < |rows| && p(rows[i])
  {
    var init := rows[..|rows| - 1];
    if CountRows(init, p) > 0 then FirstRow(init, p) else |rows| - 1
  }

  lemma CountNone(p: Endpoint -> bool)
    ensures CountRows([], p) == 0
  {
  }

  lemma CountStep(rows: Rows, i: nat, p: Endpoint -> bool)
    requires i < |rows|
    ensures CountRows(rows[..i + 1], p) == CountRows(rows[..i], p) + if p(rows[i]) then 1 else 0
  {
    assert rows[..i + 1][..i] == rows[..i];
  }

  lemma {:induction false} CountIff(rows: Rows, p: Endpoint -> bool)
    ensures CountRows(rows, p) > 0 <==> exists i :: 0 <= i < |rows| && p(rows[i])
    ensures CountRows(rows, p) > 1 <==> exists i, j :: 0 <= i < j < |rows| && p(rows[i]) && p(rows[j])
  {
    if rows != [] {
      var n, init := |rows| - 1, rows[..|rows| - 1];
      CountIff(init, p);
      if i :| 0 <= i < n && p(init[i]) {
        assert p(rows[i]);
      }
      if i, j :| 0 <= i < j < n && p(init[i]) && p(init[j]) {
        assert p(rows[i]) && p(rows[j]);
      }
      if i, j :| 0 <= i < j < |rows| && p(rows[i]) && p(rows[j]) {
        assert p(init[i]);
        assert j < n ==> p(init[j]);
      }
      if i :| 0 <= i < |rows| && p(rows[i]) {
        assert i < n ==> p(init[i]);
      }
    }
  }

  function ProbedRows(deviceId: string, endpoint: string): Endpoint -> bool {
    (e: Endpoint) => e.deviceId == deviceId && e.endpoint == endpoint
  }

  function PromotableRows(deviceId: string, endpoint: string, port: int): Endpoint -> bool {
    (e: Endpoint) => e.deviceId == deviceId && e.endpoint == endpoint && e.port == port && e.isActive
  }

  function ActiveRows(rows: Rows, deviceId: string): Rows {
    if rows == [] then []
    else if rows[0].deviceId == deviceId && rows[0].isActive then [rows[0]] + ActiveRows(rows[1..], deviceId)
    else ActiveRows(rows[1..], deviceId)
  }

  predicate HigherScore(a: Endpoint, b: Endpoint) {
    a.score > b.score
  }

  // Whether the endpoint with this id is the best active one of the device.
  function IsPreferred(active: Rows, id: string): bool {
    active != [] && SelectBest(active).value.id == id
  }

  function Reported(op: RowOp): Endpoint
    requires op.Report?
  {
    Endpoint(op.id, op.deviceId, op.endpoint, op.port, op.source, op.priority, true, Some(op.now), false, None, 0, 0, 0)
  }

  function FirstProbe(op: RowOp): Endpoint
    requires op.Probe?
  {
    var failures, successes := if op.reachable then 0 else 1, if op.reachable then 1 else 0;
    Endpoint(op.id, op.deviceId, op.endpoint, op.port, op.source, DEFAULT_PRIORITY, true, Some(op.now), op.reachable,
             op.latencyMs, failures, successes,
             Score(op.reachable, op.latencyMs, failures, successes, DEFAULT_PRIORITY))
  }

  function Probed(e: Endpoint, op: RowOp): Endpoint
    requires op.Probe?
  {
    var failures := if op.reachable then e.failureCount else e.failureCount + 1;
    var successes := if op.reachable then e.successCount + 1 else e.successCount;
    e.(reachable := op.reachable, latencyMs := op.latencyMs, failureCount := failures, successCount := successes,
       score := Score(op.reachable, op.latencyMs, failures, successes, e.priority), lastSeen := Some(op.now))
  }

  function Promoted(e: Endpoint, latencyMs: Option<int>): Endpoint {
    var successes := e.successCount + 1;
    var score :=
      if e.score == 0 then Score(true, latencyMs, e.failureCount, successes, e.priority)
      else Min(e.score + 30, SCORE_MAX);
    e.(successCount := successes, reachable := true,
       latencyMs := if latencyMs.Some? then latencyMs else e.latencyMs, score := score)
  }

  // other.is_active = False for the device's other active rows.
  function OnlyActive(rows: Rows, deviceId: string, id: string): (r: Rows)
    ensures |r| == |rows|
    ensures forall i | 0 <= i < |r| ::
      r[i] == if rows[i].deviceId == deviceId && rows[i].isActive && rows[i].id != id then rows[i].(isActive := false) else rows[i]
  {
    if rows == [] then []
    else
      var e := rows[0];
      [if e.deviceId == deviceId && e.isActive && e.id != id then e.(isActive := false) else e]
      + OnlyActive(rows[1..], deviceId, id)
  }

  predicate IsStale(e: Endpoint, cutoff: real) {
    e.isActive && e.lastSeen.Some? && e.lastSeen.value < cutoff
  }

  function StaleRows(cutoff: real): Endpoint -> bool {
    (e: Endpoint) => IsStale(e, cutoff)
  }

  function Swept(rows: Rows, cutoff: real): (r: Rows)
    ensures |r| == |rows|
    ensures forall i | 0 <= i < |r| :: r[i] == if IsStale(rows[i], cutoff) then rows[i].(isActive := false) else rows[i]
  {
    if rows == [] then []
    else [if IsStale(rows[0], cutoff) then rows[0].(isActive := false) else rows[0]] + Swept(rows[1..], cutoff)
  }

  function ApplyProbe(devices: set<string>, rows: Rows, op: RowOp): (Rows, Outcome)
    requires op.Probe?
  {
    var p := ProbedRows(op.deviceId, op.endpoint);
    var n := CountRows(rows, p);
    if n > 1 then (rows, ManyRows)
    else if n == 0 && op.deviceId !in devices then (rows, NoDevice)
    else
      var e := if n == 0 then FirstProbe(op) else Probed(rows[FirstRow(rows, p)], op);
      var rows' := if n == 0 then rows + [e] else rows[FirstRow(rows, p) := e];
      (rows', Done(e.id, e.score, IsPreferred(ActiveRows(rows', op.deviceId), e.id)))
  }

  function ApplyPromote(rows: Rows, deviceId: string, endpoint: string, port: int, latencyMs: Option<int>): (Rows, Outcome) {
    var p := PromotableRows(deviceId, endpoint, port);
    var n := CountRows(rows, p);
    if n > 1 then (rows, ManyRows)
    else if n == 0 then (rows, NoRow)
    else
      var e := Promoted(rows[FirstRow(rows, p)], latencyMs);
      var rows' := rows[FirstRow(rows, p) := e];
      var preferred := IsPreferred(Sort(ActiveRows(rows', deviceId), HigherScore), e.id);
      (if preferred then OnlyActive(rows', deviceId, e.id) else rows', Done(e.id, e.score, preferred))
  }

  /** One operation on the table, and what it answers; an exception leaves the table as it was. */
  function Apply(devices: set<string>, rows: Rows, op: RowOp): (Rows, Outcome) {
    match op
    case Report(id, deviceId, _, _, _, _, _) =>
      if deviceId !in devices then (rows, NoDevice) else (rows + [Reported(op)], Done(id, 0, false))
    case Probe(_, _, _, _, _, _, _, _) => ApplyProbe(devices, rows, op)
    case Promote(deviceId, endpoint, port, latencyMs) => ApplyPromote(rows, deviceId, endpoint, port, latencyMs)
    case Stale(cutoff) => (Swept(rows, cutoff), NoRow)
  }

  class EndpointTable {
    const devices: set<string>
    var rows: Rows

    constructor (devices: set<string>)
      ensures this.devices == devices && rows == []
    {
      this.devices := devices;
      rows := [];
    }

    method ReportEndpoint(op: RowOp) returns (o: Outcome)
      requires op.Report?
      modifies this
      ensures (rows, o) == Apply(devices, old(rows), op)
    {
      if op.deviceId !in devices {
        return NoDevice;
      }
      rows := rows + [Endpoint(op.id, op.deviceId, op.endpoint, op.port, op.source, op.priority,
                               true, Some(op.now), false, None, 0, 0, 0)];
      o := Done(op.id, 0, false);
    }

    method ProcessProbeResult(op: RowOp) returns (o: Outcome)
      requires op.Probe?
      modifies this
      ensures (rows, o) == Apply(devices, old(rows), op)
    {
      hide ActiveRows; hide IsPreferred; hide CountRows; hide FirstRow; hide ProbedRows;
      var p := ProbedRows(op.deviceId, op.endpoint);
      var found := CountRows(rows, p);
      if found > 1 {
        return ManyRows;
      }
      var e: Endpoint;
      if found == 1 {
        var i := FirstRow(rows, p);
        e := rows[i].(reachable := op.reachable, latencyMs := op.latencyMs);
        if op.reachable {
          e := e.(successCount := e.successCount + 1);
        } else {
          e := e.(failureCount := e.failureCount + 1);
        }
        var score := ComputeScore(e.reachable, e.latencyMs, e.failureCount, e.successCount, e.priority);
        e := e.(score := score, lastSeen := Some(op.now));
        rows := rows[i := e];
      } else {
        if op.deviceId !in devices {
          return NoDevice;
        }
        e := FirstProbe(op);
        rows := rows + [e];
      }
      o := Done(e.id, e.score, IsPreferred(ActiveRows(rows, op.deviceId), e.id));
    }

    method PromoteEndpoint(deviceId: string, endpoint: string, port: int, latencyMs: Option<int>) returns (o: Outcome)
      modifies this
      ensures (rows, o) == Apply(devices, old(rows), Promote(deviceId, endpoint, port, latencyMs))
    {
      hide ActiveRows; hide IsPreferred; hide CountRows; hide FirstRow; hide PromotableRows; hide Promoted; hide Sort;
      var p := PromotableRows(deviceId, endpoint, port);
      var found := CountRows(rows, p);
      if found > 1 {
        return ManyRows;
      }
      if found == 0 {
        return NoRow;
      }
      var i := FirstRow(rows, p);
      var e := Raise(rows[i], latencyMs);
      rows := rows[i := e];
      var preferred := IsPreferred(Sort(ActiveRows(rows, deviceId), HigherScore), e.id);
      if preferred {
        Deactivate(deviceId, e.id);
      }
      o := Done(e.id, e.score, preferred);
    }

    // The fields of the promoted row.
    method Raise(row: Endpoint, latencyMs: Option<int>) returns (e: Endpoint)
      ensures e == Promoted(row, latencyMs)
    {
      e := row.(successCount := row.successCount + 1, reachable := true);
      if latencyMs.Some? {
        e := e.(latencyMs := latencyMs);
      }
      if e.score == 0 {
        var score := ComputeScore(true, latencyMs, e.failureCount, e.successCount, e.priority);
        e := e.(score := score);
      } else {
        e := e.(score := Min(e.score + 30, SCORE_MAX));
      }
    }

    method Deactivate(deviceId: string, id: string)
      modifies this
      ensures rows == OnlyActive(old(rows), deviceId, id)
    {
      ghost var all := OnlyActive(rows, deviceId, id);
      for i := 0 to |rows|
        invariant |rows| == |old(rows)|
        invariant forall k | 0 <= k < |rows| :: rows[k] == if k < i then all[k] else old(rows)[k]
      {
        if rows[i].deviceId == deviceId && rows[i].isActive && rows[i].id != id {
          rows := rows[i := rows[i].(isActive := false)];
        }
      }
    }

    method StaleEndpointCleanup(cutoff: real) returns (cleaned: nat)
      modifies this
      ensures rows == Swept(old(rows), cutoff)
      ensures cleaned == CountRows(old(rows), StaleRows(cutoff))
    {
      hide CountRows; hide Swept; hide IsStale;
      ghost var all, p := Swept(rows, cutoff), StaleRows(cutoff);
      cleaned := 0;
      CountNone(p);
      for i := 0 to |rows|
        invariant |rows| == |old(rows)|
        invariant forall k | 0 <= k < |rows| :: rows[k] == if k < i then all[k] else old(rows)[k]
        invariant cleaned == CountRows(old(rows)[..i], p)
      {
        CountStep(old(rows), i, p);
        if IsStale(rows[i], cutoff) {
          rows := rows[i := rows[i].(isActive := false)];
          cleaned := cleaned + 1;
        }
      }
      assert old(rows)[..|rows|] == old(rows);
      assert rows == all;
    }
  }

  // ----- Invariants of every run

  predicate RowGood(e: Endpoint) {
    0 <= e.score <= SCORE_MAX && e.failureCount >= 0 && e.successCount >= 0
  }

  ghost predicate Good(rows: Rows) {
    && (forall i | 0 <= i < |rows| :: RowGood(rows[i]))
    && (forall i, j | 0 <= i < j < |rows| :: rows[i].id != rows[j].id)
  }

  // The row at a position stays the same endpoint, and its counts do not decrease.
  predicate Grows(e: Endpoint, f: Endpoint) {
    && f.id == e.id && f.deviceId == e.deviceId && f.endpoint == e.endpoint && f.port == e.port
    && f.successCount >= e.successCount && f.failureCount >= e.failureCount
  }

  ghost predicate AllGrow(before: Rows, after: Rows) {
    |before| <= |after| && forall i | 0 <= i < |before| :: Grows(before[i], after[i])
  }

  /** New rows get ids that no row has. */
  ghost predicate FreshId(rows: Rows, op: RowOp) {
    op.Report? || op.Probe? ==> forall i | 0 <= i < |rows| :: rows[i].id != op.id
  }

  lemma StepKeepsGood(devices: set<string>, rows: Rows, op: RowOp)
    requires Good(rows) && FreshId(rows, op)
    ensures Good(Apply(devices, rows, op).0) && AllGrow(rows, Apply(devices, rows, op).0)
  {
    hide Score; hide IsPreferred; hide CountRows; hide FirstRow; hide ActiveRows; hide Sort;
    match op {
      case Report(_, _, _, _, _, _, _) =>
      case Probe(_, deviceId, endpoint, _, _, _, _, _) => ProbeKeepsGood(devices, rows, op);
      case Promote(deviceId, endpoint, port, latencyMs) => PromoteKeepsGood(rows, deviceId, endpoint, port, latencyMs);
      case Stale(cutoff) =>
    }
  }

  lemma ProbeKeepsGood(devices: set<string>, rows: Rows, op: RowOp)
    requires op.Probe? && Good(rows) && FreshId(rows, op)
    ensures Good(ApplyProbe(devices, rows, op).0) && AllGrow(rows, ApplyProbe(devices, rows, op).0)
  {
    hide Score; hide IsPreferred; hide CountRows; hide FirstRow; hide ActiveRows; hide ProbedRows;
  }

  lemma PromoteKeepsGood(rows: Rows, deviceId: string, endpoint: string, port: int, latencyMs: Option<int>)
    requires Good(rows)
    ensures var rows' := ApplyPromote(rows, deviceId, endpoint, port, latencyMs).0; Good(rows') && AllGrow(rows, rows')
  {
    hide Score; hide IsPreferred; hide CountRows; hide FirstRow; hide ActiveRows; hide Sort; hide PromotableRows;
  }

  function Run(devices: set<string>, ops: seq<RowOp>): Rows {
    if ops == [] then [] else Apply(devices, Run(devices, ops[..|ops| - 1]), ops[|ops| - 1]).0
  }

  ghost predicate FreshRun(devices: set<string>, ops: seq<RowOp>) {
    ops == [] ||
    (FreshRun(devices, ops[..|ops| - 1]) && FreshId(Run(devices, ops[..|ops| - 1]), ops[|ops| - 1]))
  }

  /** Over every run scores stay between 0 and 200, counts never decrease, and rows keep their identity. */
  lemma {:induction false} RowsStayGood(devices: set<string>, ops: seq<RowOp>, more: seq<RowOp>)
    requires FreshRun(devices, ops + more)
    ensures FreshRun(devices, ops) && Good(Run(devices, ops)) && Good(Run(devices, ops + more))
    ensures AllGrow(Run(devices, ops), Run(devices, ops + more))
    decreases |more|, |ops|
  {
    hide Apply;
    if more != [] {
      var init, last := more[..|more| - 1], more[|more| - 1];
      assert (ops + more)[..|ops + more| - 1] == ops + init;
      RowsStayGood(devices, ops, init);
      StepKeepsGood(devices, Run(devices, ops + init), last);
    } else {
      assert ops + more == ops;
      if ops != [] {
        var init := ops[..|ops| - 1];
        assert init + [] == init;
        RowsStayGood(devices, init, []);
        StepKeepsGood(devices, Run(devices, init), ops[|ops| - 1]);
      }
    }
  }

  // ----- Promotion

  lemma {:induction false} ActiveRowsAre(rows: Rows, deviceId: string)
    ensures forall e :: e in ActiveRows(rows, deviceId) <==> e in rows && e.deviceId == deviceId && e.isActive
  {
    if rows != [] {
      ActiveRowsAre(rows[1..], deviceId);
    }
  }

  lemma HigherScoreIsOrder()
    ensures StrictWeakOrder(HigherScore)
  {
  }

  /**
   * A promotion answers an exception exactly when two active rows of the device have the endpoint and port, and no
   * row when none has.
   */
  lemma PromotionOutcome(rows: Rows, deviceId: string, endpoint: string, port: int, latencyMs: Option<int>)
    ensures var p := PromotableRows(deviceId, endpoint, port);
      var o := ApplyPromote(rows, deviceId, endpoint, port, latencyMs).1;
      && (o == ManyRows <==> exists i, j :: 0 <= i < j < |rows| && p(rows[i]) && p(rows[j]))
      && (o == NoRow <==> forall i | 0 <= i < |rows| :: !p(rows[i]))
  {
    CountIff(rows, PromotableRows(deviceId, endpoint, port));
    hide Promoted; hide IsPreferred; hide OnlyActive; hide ActiveRows; hide Sort; hide CountRows; hide PromotableRows;
  }

  /**
   * A promotion of a row never lowers any score, touches no other device's rows, and, when it answers preferred,
   * leaves the promoted endpoint as the device's only active one.
   */
  lemma PromotionIsExclusive(rows: Rows, deviceId: string, endpoint: string, port: int, latencyMs: Option<int>)
    requires Good(rows)
    ensures var (rows', o) := ApplyPromote(rows, deviceId, endpoint, port, latencyMs);
      && |rows'| == |rows|
      && (forall i | 0 <= i < |rows| :: rows'[i].score >= rows[i].score)
      && (forall i | 0 <= i < |rows| && rows[i].deviceId != deviceId :: rows'[i] == rows[i])
      && (o.Done? && o.preferred ==>
            forall i | 0 <= i < |rows| && rows'[i].deviceId == deviceId :: rows'[i].isActive <==> rows'[i].id == o.id)
      && (o.Done? && !o.preferred ==> forall i | 0 <= i < |rows| :: rows'[i].isActive == rows[i].isActive)
  {
    hide Score; hide IsPreferred; hide CountRows; hide FirstRow; hide ActiveRows; hide Sort; hide PromotableRows;
    hide OnlyActive;
    var p := PromotableRows(deviceId, endpoint, port);
    if CountRows(rows, p) == 1 {
      PromotableRow(rows, deviceId, endpoint, port);
    }
  }

  lemma PromotableRow(rows: Rows, deviceId: string, endpoint: string, port: int)
    requires CountRows(rows, PromotableRows(deviceId, endpoint, port)) > 0
    ensures var e := rows[FirstRow(rows, PromotableRows(deviceId, endpoint, port))];
      e.deviceId == deviceId && e.endpoint == endpoint && e.port == port && e.isActive
  {
  }

  /** A promoted row that answers preferred is active, and no other active row of its device ranks before it. */
  lemma PreferredRanksBest(rows: Rows, deviceId: string, endpoint: string, port: int, latencyMs: Option<int>)
    requires Good(rows)
    ensures var (rows', o) := ApplyPromote(rows, deviceId, endpoint, port, latencyMs);
      o.Done? && o.preferred ==> exists e | e in rows' && e.id == o.id ::
        e.isActive && e.deviceId == deviceId && e.score == o.score
        && forall f | f in rows && f.deviceId == deviceId && f.isActive && f.id != o.id :: !RanksBefore(f, e)
  {
    hide Score; hide IsPreferred; hide CountRows; hide FirstRow; hide ActiveRows; hide Sort; hide RanksBefore;
    var p := PromotableRows(deviceId, endpoint, port);
    if CountRows(rows, p) == 1 {
      var k := FirstRow(rows, p);
      var e := Promoted(rows[k], latencyMs);
      var rows1 := rows[k := e];
      if IsPreferred(Sort(ActiveRows(rows1, deviceId), HigherScore), e.id) {
        BestActive(rows1, deviceId, k);
        forall f | f in rows && f.deviceId == deviceId && f.isActive && f.id != e.id ensures !RanksBefore(f, e) {
          var j :| 0 <= j < |rows| && rows[j] == f;
          assert rows1[j] == f;
        }
        assert OnlyActive(rows1, deviceId, e.id)[k] == e;
      }
    }
  }

  lemma BestActive(rows: Rows, deviceId: string, k: nat)
    requires k < |rows| && rows[k].deviceId == deviceId && rows[k].isActive
    requires forall i | 0 <= i < |rows| && i != k :: rows[i].id != rows[k].id
    requires IsPreferred(Sort(ActiveRows(rows, deviceId), HigherScore), rows[k].id)
    ensures forall f | f in rows && f.deviceId == deviceId && f.isActive :: !RanksBefore(f, rows[k])
  {
    hide RanksBefore;
    var active := ActiveRows(rows, deviceId);
    var sorted := Sort(active, HigherScore);
    ActiveRowsAre(rows, deviceId);
    HigherScoreIsOrder();
    SortIsStableSort(active, HigherScore);
    SelectBestIsBest(sorted);
    hide Sort; hide ActiveRows; hide SelectBest;
    var best := SelectBest(sorted).value;
    assert best in multiset(active);
    var m :| 0 <= m < |rows| && rows[m] == best;
    forall f | f in rows && f.deviceId == deviceId && f.isActive ensures !RanksBefore(f, rows[k]) {
      assert f in multiset(sorted);
    }
  }

  /** Reporting the same endpoint twice makes the promotion of it that comes next raise. */
  lemma DuplicateReportsBlockPromotion(devices: set<string>, rows: Rows, a: RowOp, b: RowOp, latencyMs: Option<int>)
    requires a.Report? && b.Report? && a.deviceId == b.deviceId && a.endpoint == b.endpoint && a.port == b.port
    requires a.deviceId in devices
    ensures var rows' := Apply(devices, Apply(devices, rows, a).0, b).0;
      Apply(devices, rows', Promote(a.deviceId, a.endpoint, a.port, latencyMs)) == (rows', ManyRows)
  {
    var rows' := rows + [Reported(a)] + [Reported(b)];
    PromotionOutcome(rows', a.deviceId, a.endpoint, a.port, latencyMs);
    var p := PromotableRows(a.deviceId, a.endpoint, a.port);
    assert p(rows'[|rows|]) && p(rows'[|rows| + 1]);
  }
}
