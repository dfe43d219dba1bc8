/** Promotion over runs: which rows are active, when a promotion raises, and when it answers preferred. */
module PromotionRuns {

  import opened Options
  import opened StableSort
  import opened Endpoints
  import opened EndpointRows

  // ----- Which rows are active

  /** The operation deactivates row i: a sweep that finds it stale, or a preferred promotion of another row. */
  predicate Deactivates(rows: Rows, op: RowOp, i: nat)
    requires i < |rows|
  {
    match op
    case Stale(cutoff) => IsStale(rows[i], cutoff)
    case Promote(deviceId, endpoint, port, latencyMs) =>
      var o := ApplyPromote(rows, deviceId, endpoint, port, latencyMs).1;
      rows[i].deviceId == deviceId && rows[i].isActive && o.Done? && o.preferred && o.id != rows[i].id
    case _ => false
  }

  lemma ActiveStep(devices: set<string>, rows: Rows, op: RowOp, i: nat)
    requires Good(rows) && FreshId(rows, op) && i < |rows|
    ensures var rows' := Apply(devices, rows, op).0;
      && i < |rows'| && Grows(rows[i], rows'[i])
      && (rows'[i].isActive <==> rows[i].isActive && !Deactivates(rows, op, i))
  {
    StepKeepsGood(devices, rows, op);
    match op {
      case Report(_, _, _, _, _, _, _) =>
      case Stale(_) =>
      case Probe(_, _, _, _, _, _, _, _) => ProbeKeepsActive(devices, rows, op, i);
      case Promote(deviceId, endpoint, port, latencyMs) => PromoteActive(rows, deviceId, endpoint, port, latencyMs, i);
    }
    hide Good; hide Score; hide ApplyPromote; hide ApplyProbe;
  }

  lemma ProbeKeepsActive(devices: set<string>, rows: Rows, op: RowOp, i: nat)
    requires op.Probe? && i < |rows|
    ensures var rows' := ApplyProbe(devices, rows, op).0; i < |rows'| && rows'[i].isActive == rows[i].isActive
  {
    hide Score; hide IsPreferred; hide CountRows; hide FirstRow; hide ActiveRows; hide ProbedRows;
  }

  lemma PromoteActive(rows: Rows, deviceId: string, endpoint: string, port: int, latencyMs: Option<int>, i: nat)
    requires Good(rows) && i < |rows|
    ensures var rows' := ApplyPromote(rows, deviceId, endpoint, port, latencyMs).0;
      && i < |rows'|
      && (rows'[i].isActive <==>
            rows[i].isActive && !Deactivates(rows, Promote(deviceId, endpoint, port, latencyMs), i))
  {
    PromotionIsExclusive(rows, deviceId, endpoint, port, latencyMs);
    PromotedIsActive(rows, deviceId, endpoint, port, latencyMs, i);
    StepKeepsGood({}, rows, Promote(deviceId, endpoint, port, latencyMs));
    FailedPromotion(rows, deviceId, endpoint, port, latencyMs);
    hide ApplyPromote; hide Good;
  }

  lemma FailedPromotion(rows: Rows, deviceId: string, endpoint: string, port: int, latencyMs: Option<int>)
    ensures var (rows', o) := ApplyPromote(rows, deviceId, endpoint, port, latencyMs); !o.Done? ==> rows' == rows
  {
  }

  // A promoted row was active before.
  lemma PromotedIsActive(rows: Rows, deviceId: string, endpoint: string, port: int, latencyMs: Option<int>, i: nat)
    requires Good(rows) && i < |rows|
    ensures var o := ApplyPromote(rows, deviceId, endpoint, port, latencyMs).1;
      o.Done? && o.id == rows[i].id ==> rows[i].isActive
  {
    hide Score; hide IsPreferred; hide CountRows; hide FirstRow; hide ActiveRows; hide Sort; hide PromotableRows;
    var p := PromotableRows(deviceId, endpoint, port);
    if CountRows(rows, p) == 1 {
      PromotableRow(rows, deviceId, endpoint, port);
    }
  }

  // ----- Runs

  lemma PrefixIsFresh(devices: set<string>, ops: seq<RowOp>, n: nat)
    requires FreshRun(devices, ops) && n <= |ops|
    ensures FreshRun(devices, ops[..n]) && Good(Run(devices, ops[..n]))
    ensures AllGrow(Run(devices, ops[..n]), Run(devices, ops))
    ensures n < |ops| ==> FreshId(Run(devices, ops[..n]), ops[n])
    ensures n < |ops| ==> Run(devices, ops[..n + 1]) == Apply(devices, Run(devices, ops[..n]), ops[n]).0
  {
    hide Good; hide AllGrow; hide Apply; hide FreshId; hide Run; hide FreshRun;
    assert ops[..n] + ops[n..] == ops;
    RowsStayGood(devices, ops[..n], ops[n..]);
    if n < |ops| {
      var more := ops[..n + 1];
      assert more + ops[n + 1..] == ops;
      RowsStayGood(devices, more, ops[n + 1..]);
      assert more[..n] == ops[..n];
      LastStep(devices, more);
    }
  }

  lemma LastStep(devices: set<string>, ops: seq<RowOp>)
    requires FreshRun(devices, ops) && ops != []
    ensures var init, last := ops[..|ops| - 1], ops[|ops| - 1];
      FreshId(Run(devices, init), last) && Run(devices, ops) == Apply(devices, Run(devices, init), last).0
  {
  }

  /** The operation at a added a row, and nothing since has deactivated that row. */
  ghost predicate Stands(devices: set<string>, ops: seq<RowOp>, a: nat)
    requires a < |ops|
  {
    var i := |Run(devices, ops[..a])|;
    && |Run(devices, ops[..a + 1])| > i
    && forall k | a < k < |ops| :: i < |Run(devices, ops[..k])| && !Deactivates(Run(devices, ops[..k]), ops[k], i)
  }

  // What an operation adds: one row with its own device, endpoint and port, at the end and active.
  lemma AddsOne(devices: set<string>, rows: Rows, op: RowOp)
    ensures var rows' := Apply(devices, rows, op).0;
      && |rows| <= |rows'| <= |rows| + 1
      && (|rows'| > |rows| ==>
            && (op.Report? || op.Probe?) && rows'[|rows|].isActive && rows'[|rows|].deviceId == op.deviceId
            && rows'[|rows|].endpoint == op.endpoint && rows'[|rows|].port == op.port)
  {
    hide Score; hide IsPreferred; hide CountRows; hide FirstRow; hide ActiveRows; hide Sort;
  }

  /** A row is active exactly when nothing has deactivated it since: nothing ever makes a row active again. */
  lemma {:induction false} ActiveIff(devices: set<string>, ops: seq<RowOp>, n: nat, i: nat)
    requires FreshRun(devices, ops) && n <= |ops| && i < |Run(devices, ops[..n])|
    ensures i < |Run(devices, ops)|
    ensures forall k | n <= k < |ops| :: i < |Run(devices, ops[..k])|
    ensures Run(devices, ops)[i].isActive <==>
      Run(devices, ops[..n])[i].isActive && forall k | n <= k < |ops| :: !Deactivates(Run(devices, ops[..k]), ops[k], i)
    decreases |ops| - n
  {
    hide Deactivates; hide Good; hide Run; hide FreshRun;
    PrefixIsFresh(devices, ops, n);
    if n == |ops| {
      assert ops[..n] == ops;
    } else {
      ActiveStep(devices, Run(devices, ops[..n]), ops[n], i);
      ActiveIff(devices, ops, n + 1, i);
      forall k | n <= k < |ops| ensures i < |Run(devices, ops[..k])| {
        if k == n { assert ops[..k] == ops[..n]; }
      }
    }
  }

  /** The row that an operation added is active exactly when the operation stands, and keeps device, endpoint and port. */
  lemma AddedRow(devices: set<string>, ops: seq<RowOp>, a: nat)
    requires FreshRun(devices, ops) && a < |ops|
    requires |Run(devices, ops[..a + 1])| > |Run(devices, ops[..a])|
    ensures var i := |Run(devices, ops[..a])|;
      && i < |Run(devices, ops)| && (ops[a].Report? || ops[a].Probe?)
      && Run(devices, ops)[i].deviceId == ops[a].deviceId
      && Run(devices, ops)[i].endpoint == ops[a].endpoint && Run(devices, ops)[i].port == ops[a].port
      && (Run(devices, ops)[i].isActive <==> Stands(devices, ops, a))
  {
    hide Deactivates; hide Good; hide Run; hide FreshRun; hide Apply;
    PrefixIsFresh(devices, ops, a);
    PrefixIsFresh(devices, ops, a + 1);
    AddsOne(devices, Run(devices, ops[..a]), ops[a]);
    ActiveIff(devices, ops, a + 1, |Run(devices, ops[..a])|);
  }

  // The operation that added a row.
  lemma {:induction false} OpOfRow(devices: set<string>, ops: seq<RowOp>, i: nat) returns (a: nat)
    requires i < |Run(devices, ops)|
    ensures a < |ops| && |Run(devices, ops[..a])| == i && |Run(devices, ops[..a + 1])| == i + 1
  {
    hide Apply;
    var init, n := ops[..|ops| - 1], |ops| - 1;
    AddsOne(devices, Run(devices, init), ops[n]);
    if i < |Run(devices, init)| {
      a := OpOfRow(devices, init, i);
      assert init[..a] == ops[..a] && init[..a + 1] == ops[..a + 1];
    } else {
      a := n;
      assert ops[..n + 1] == ops;
    }
  }

  lemma RowsGrow(devices: set<string>, ops: seq<RowOp>, a: nat, b: nat)
    requires FreshRun(devices, ops) && a <= b <= |ops|
    ensures |Run(devices, ops[..a])| <= |Run(devices, ops[..b])|
  {
    PrefixIsFresh(devices, ops, b);
    PrefixIsFresh(devices, ops[..b], a);
    assert ops[..b][..a] == ops[..a];
  }

  /** The operation added a row with this device, endpoint and port that nothing has deactivated since. */
  ghost predicate Offers(devices: set<string>, ops: seq<RowOp>, a: nat, deviceId: string, endpoint: string, port: int)
    requires a < |ops|
  {
    && (ops[a].Report? || ops[a].Probe?)
    && ops[a].deviceId == deviceId && ops[a].endpoint == endpoint && ops[a].port == port
    && Stands(devices, ops, a)
  }

  lemma OffersIff(devices: set<string>, ops: seq<RowOp>, a: nat, deviceId: string, endpoint: string, port: int)
    requires FreshRun(devices, ops) && a < |ops|
    ensures var rows, i := Run(devices, ops), |Run(devices, ops[..a])|;
      Offers(devices, ops, a, deviceId, endpoint, port) <==>
        && |Run(devices, ops[..a + 1])| > i && i < |rows| && PromotableRows(deviceId, endpoint, port)(rows[i])
  {
    hide Run; hide FreshRun; hide Deactivates;
    if |Run(devices, ops[..a + 1])| > |Run(devices, ops[..a])| {
      AddedRow(devices, ops, a);
    }
  }

  /**
   * Over every run a promotion raises exactly when two operations, reports or first probes, added rows for the endpoint
   * that no sweep and no preferred promotion of another endpoint has deactivated since.
   */
  lemma PromotionRaisesIff(
    devices: set<string>, ops: seq<RowOp>, deviceId: string, endpoint: string, port: int, latencyMs: Option<int>)
    requires FreshRun(devices, ops)
    ensures ApplyPromote(Run(devices, ops), deviceId, endpoint, port, latencyMs).1 == ManyRows <==>
      exists a, b | 0 <= a < b < |ops| ::
        Offers(devices, ops, a, deviceId, endpoint, port) && Offers(devices, ops, b, deviceId, endpoint, port)
  {
    var rows, p := Run(devices, ops), PromotableRows(deviceId, endpoint, port);
    PromotionOutcome(rows, deviceId, endpoint, port, latencyMs);
    hide Run; hide FreshRun; hide ApplyPromote; hide Offers; hide PromotableRows;
    if i, j :| 0 <= i < j < |rows| && p(rows[i]) && p(rows[j]) {
      var a := OpOfRow(devices, ops, i);
      var b := OpOfRow(devices, ops, j);
      OffersIff(devices, ops, a, deviceId, endpoint, port);
      OffersIff(devices, ops, b, deviceId, endpoint, port);
      if b <= a { RowsGrow(devices, ops, b, a); }
    }
    if a, b :|
        0 <= a < b < |ops|
        && Offers(devices, ops, a, deviceId, endpoint, port) && Offers(devices, ops, b, deviceId, endpoint, port) {
      OffersIff(devices, ops, a, deviceId, endpoint, port);
      OffersIff(devices, ops, b, deviceId, endpoint, port);
      RowsGrow(devices, ops, a + 1, b);
      assert |Run(devices, ops[..a])| < |Run(devices, ops[..b])|;
    }
  }

  /** A preferred promotion of another endpoint of the device ends it: nothing is left to raise, or to promote. */
  lemma PreferredElsewhereUnblocks(
    rows: Rows, deviceId: string, endpoint: string, port: int, latencyMs: Option<int>, other: string, otherPort: int)
    requires Good(rows) && (endpoint != other || port != otherPort)
    requires var o := ApplyPromote(rows, deviceId, other, otherPort, latencyMs).1; o.Done? && o.preferred
    ensures var rows' := ApplyPromote(rows, deviceId, other, otherPort, latencyMs).0;
      ApplyPromote(rows', deviceId, endpoint, port, latencyMs) == (rows', NoRow)
  {
    var (rows', o) := ApplyPromote(rows, deviceId, other, otherPort, latencyMs);
    PromotionIsExclusive(rows, deviceId, other, otherPort, latencyMs);
    StepKeepsGood({}, rows, Promote(deviceId, other, otherPort, latencyMs));
    PromotionOutcome(rows', deviceId, endpoint, port, latencyMs);
    FailedPromotion(rows', deviceId, endpoint, port, latencyMs);
    hide ApplyPromote;
    forall i | 0 <= i < |rows'| ensures !PromotableRows(deviceId, endpoint, port)(rows'[i]) {
      PromotedIs(rows, deviceId, other, otherPort, latencyMs, i);
    }
  }

  lemma PromotedIs(rows: Rows, deviceId: string, endpoint: string, port: int, latencyMs: Option<int>, i: nat)
    requires Good(rows) && i < |rows|
    ensures var o := ApplyPromote(rows, deviceId, endpoint, port, latencyMs).1;
      o.Done? && o.id == rows[i].id ==> rows[i].endpoint == endpoint && rows[i].port == port
  {
    hide Score; hide IsPreferred; hide CountRows; hide FirstRow; hide ActiveRows; hide Sort; hide PromotableRows;
    var p := PromotableRows(deviceId, endpoint, port);
    if CountRows(rows, p) == 1 {
      PromotableRow(rows, deviceId, endpoint, port);
    }
  }

  // ----- When a promotion answers preferred

  lemma BestRefinesScore()
    ensures Refines(RanksBefore, HigherScore)
  {
  }

  /** Row k ranks before every earlier active row of its device, and no later one ranks before it. */
  predicate OutranksAll(rows: Rows, k: nat)
    requires k < |rows|
  {
    forall j | 0 <= j < |rows| && j != k && rows[j].deviceId == rows[k].deviceId && rows[j].isActive ::
      if j < k then RanksBefore(rows[k], rows[j]) else !RanksBefore(rows[j], rows[k])
  }

  lemma {:induction false} ActiveAround(rows: Rows, deviceId: string, k: nat)
    requires k < |rows| && rows[k].deviceId == deviceId && rows[k].isActive
    ensures ActiveRows(rows, deviceId) == ActiveRows(rows[..k], deviceId) + [rows[k]] + ActiveRows(rows[k + 1..], deviceId)
  {
    if k > 0 {
      var rest := rows[1..];
      ActiveAround(rest, deviceId, k - 1);
      assert rows[..k][1..] == rest[..k - 1] && rest[k - 1 + 1..] == rows[k + 1..];
    } else {
      assert rows[..0] == [];
    }
  }

  // Sorting by score first, as the query does, does not matter.
  lemma SelectAfterScore(active: Rows, id: string)
    ensures IsPreferred(Sort(active, HigherScore), id) <==> active != [] && Sort(active, RanksBefore)[0].id == id
  {
    BestRefinesScore();
    HigherScoreIsOrder();
    RanksBeforeIsOrder();
    SortTwice(active, RanksBefore, HigherScore);
  }

  lemma BestIffOutranks(rows: Rows, k: nat)
    requires k < |rows| && rows[k].isActive && forall i, j | 0 <= i < j < |rows| :: rows[i].id != rows[j].id
    ensures IsPreferred(Sort(ActiveRows(rows, rows[k].deviceId), HigherScore), rows[k].id) <==> OutranksAll(rows, k)
  {
    hide Sort; hide RanksBefore; hide IsPreferred; hide ActiveRows; hide StrictWeakOrder; hide OutranksAll;
    var e := rows[k];
    var front, back := ActiveRows(rows[..k], e.deviceId), ActiveRows(rows[k + 1..], e.deviceId);
    var active := ActiveRows(rows, e.deviceId);
    ActiveAround(rows, e.deviceId, k);
    ActiveRowsAre(rows, e.deviceId);
    SelectAfterScore(active, e.id);
    RanksBeforeIsOrder();
    var m := SortHeadIsFirst(active, RanksBefore);
    OutranksByList(rows, k);
    PlaceOf(front, e, back, m);
    assert active[m] in active;
    SameIdSameRow(rows, k, active[m]);
  }

  // A position in the list with the head's property is the head's.
  lemma PlaceOf(front: Rows, e: Endpoint, back: Rows, m: nat)
    requires var active := front + [e] + back;
      && m < |active|
      && (forall j | 0 <= j < m :: RanksBefore(active[m], active[j]))
      && (forall j | m < j < |active| :: !RanksBefore(active[j], active[m]))
    requires e !in front && e !in back
    ensures (front + [e] + back)[m] == e <==>
      (forall f | f in front :: RanksBefore(e, f)) && (forall f | f in back :: !RanksBefore(f, e))
  {
    hide RanksBefore;
    var active, n := front + [e] + back, |front|;
    assert active[n] == e;
    assert m < n ==> active[m] == front[m] && active[m] in front && !RanksBefore(e, active[m]);
    assert m > n ==> active[m] == back[m - n - 1] && active[m] in back && RanksBefore(active[m], e);
    if m == n {
      forall f | f in front ensures RanksBefore(e, f) {
        var j :| 0 <= j < n && front[j] == f;
        assert active[j] == f;
      }
      forall f | f in back ensures !RanksBefore(f, e) {
        var j :| 0 <= j < |back| && back[j] == f;
        assert active[n + 1 + j] == f;
      }
    }
  }

  lemma OutranksByList(rows: Rows, k: nat)
    requires k < |rows| && rows[k].isActive && forall i, j | 0 <= i < j < |rows| :: rows[i].id != rows[j].id
    ensures var e := rows[k];
      var front, back := ActiveRows(rows[..k], e.deviceId), ActiveRows(rows[k + 1..], e.deviceId);
      && e !in front && e !in back
      && (OutranksAll(rows, k) <==>
            (forall f | f in front :: RanksBefore(e, f)) && (forall f | f in back :: !RanksBefore(f, e)))
  {
    hide RanksBefore;
    var e := rows[k];
    var front, back := ActiveRows(rows[..k], e.deviceId), ActiveRows(rows[k + 1..], e.deviceId);
    ActiveRowsAre(rows[..k], e.deviceId);
    ActiveRowsAre(rows[k + 1..], e.deviceId);
    hide ActiveRows;
    assert forall j | 0 <= j < k :: rows[..k][j] == rows[j];
    assert forall j | k < j < |rows| :: rows[k + 1..][j - k - 1] == rows[j];
    if OutranksAll(rows, k) {
      forall f | f in front ensures RanksBefore(e, f) {
        var j :| 0 <= j < k && rows[..k][j] == f;
        assert rows[j] == f;
      }
      forall f | f in back ensures !RanksBefore(f, e) {
        var j :| 0 <= j < |rows| - k - 1 && rows[k + 1..][j] == f;
        assert rows[k + 1 + j] == f;
      }
    }
    if (forall f | f in front :: RanksBefore(e, f)) && (forall f | f in back :: !RanksBefore(f, e)) {
      forall j | 0 <= j < |rows| && j != k && rows[j].deviceId == e.deviceId && rows[j].isActive
        ensures if j < k then RanksBefore(e, rows[j]) else !RanksBefore(rows[j], e)
      {
        if j < k { assert rows[j] in front; } else { assert rows[j] in back; }
      }
    }
  }

  lemma SameIdSameRow(rows: Rows, k: nat, f: Endpoint)
    requires k < |rows| && forall i, j | 0 <= i < j < |rows| :: rows[i].id != rows[j].id
    ensures f in rows && f.id == rows[k].id ==> f == rows[k]
  {
    if f in rows {
      var i :| 0 <= i < |rows| && rows[i] == f;
    }
  }

  /**
   * A promotion of row k answers preferred if and only if the promoted row ranks before every earlier active row of its
   * device and no later active row of the device ranks before it.
   */
  lemma PreferredIff(rows: Rows, k: nat, latencyMs: Option<int>)
    requires Good(rows) && k < |rows|
    requires ApplyPromote(rows, rows[k].deviceId, rows[k].endpoint, rows[k].port, latencyMs).1.Done?
    requires rows[k].isActive
    ensures var o := ApplyPromote(rows, rows[k].deviceId, rows[k].endpoint, rows[k].port, latencyMs).1;
      && o.id == rows[k].id && o.score == Promoted(rows[k], latencyMs).score
      && (o.preferred <==> OutranksAll(rows[k := Promoted(rows[k], latencyMs)], k))
  {
    var e := rows[k];
    var p := PromotableRows(e.deviceId, e.endpoint, e.port);
    PromotionOutcome(rows, e.deviceId, e.endpoint, e.port, latencyMs);
    assert FirstRow(rows, p) == k by {
      var i := FirstRow(rows, p);
      assert p(rows[i]) && p(rows[k]);
    }
    hide Score; hide IsPreferred; hide CountRows; hide FirstRow; hide ActiveRows; hide Sort; hide OutranksAll;
    BestIffOutranks(rows[k := Promoted(e, latencyMs)], k);
  }
}
