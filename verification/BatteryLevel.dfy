/** The coarse battery level with its hysteresis, and the percentage curve. */
module BatteryLevel {
  import opened Words
  import opened Arith

  const LEVEL_HYSTERESIS_MV := 30

  datatype Level = Unknown | Charging | Low | Partial | Full

  /** The `Low|Partial` and the `Partial|Full` boundary in millivolts. */
  function Boundary(k: nat): nat
    requires k < 2
  {
    if k == 0 then 3_700 else 4_000
  }

  function PlainIndex(mv: nat): nat {
    (if mv >= Boundary(0) then 1 else 0) + if mv >= Boundary(1) then 1 else 0
  }

  /** The highest bucket that `mv` is clearly in, and the highest it is not clearly below. */
  function Floor(mv: nat): nat {
    (if mv >= Boundary(0) + LEVEL_HYSTERESIS_MV then 1 else 0) + if mv >= Boundary(1) + LEVEL_HYSTERESIS_MV then 1 else 0
  }

  function Ceiling(mv: nat): nat {
    (if mv >= Boundary(0) - LEVEL_HYSTERESIS_MV then 1 else 0) + if mv >= Boundary(1) - LEVEL_HYSTERESIS_MV then 1 else 0
  }

  /** The previous bucket, moved no further than the reading demands. */
  function HysteresisIndex(prev: nat, mv: nat): nat {
    Max(Floor(mv), Min(prev, Ceiling(mv)))
  }

  /** The two loops of the firmware compute that. */
  method HysteresisBucketIndexMv(prevIdx: nat, settledMv: nat) returns (idx: nat)
    requires prevIdx <= 2
    ensures idx == HysteresisIndex(prevIdx, settledMv)
  {
    idx := prevIdx;
    while idx < 2 && settledMv >= Boundary(idx) + LEVEL_HYSTERESIS_MV
      invariant prevIdx <= idx <= 2
      invariant idx == prevIdx || idx <= Floor(settledMv)
    {
      idx := idx + 1;
    }
    while idx > 0 && settledMv < SatSub(Boundary(idx - 1), LEVEL_HYSTERESIS_MV)
      invariant idx <= 2 && Floor(settledMv) <= idx
      invariant idx == Max(prevIdx, Floor(settledMv)) || Ceiling(settledMv) <= idx < prevIdx
    {
      idx := idx - 1;
    }
  }

  function IndexOf(level: Level): Option<nat> {
    match level
    case Low => Some(0)
    case Partial => Some(1)
    case Full => Some(2)
    case _ => None
  }

  function LevelOf(idx: nat): Level {
    if idx == 0 then Low else if idx == 1 then Partial else Full
  }

  function BatteryLevelBucket(prev: Level, settledMv: nat, charging: bool): Level {
    if charging then Charging
    else
      match IndexOf(prev)
      case None => LevelOf(PlainIndex(settledMv))
      case Some(i) => LevelOf(HysteresisIndex(i, settledMv))
  }

  predicate InBand(k: nat, mv: nat)
    requires k < 2
  {
    Boundary(k) - LEVEL_HYSTERESIS_MV <= mv < Boundary(k) + LEVEL_HYSTERESIS_MV
  }

  // ── One step ───────────────────────────────────────────────────────────────

  /**
   * One step lands on a fixpoint, respects the order of readings and of previous buckets, and forgets the
   * previous bucket exactly outside both bands.
   */
  lemma OneStep(prev: nat, mv: nat)
    requires prev <= 2
    ensures HysteresisIndex(prev, mv) <= 2
    ensures HysteresisIndex(HysteresisIndex(prev, mv), mv) == HysteresisIndex(prev, mv)
    ensures forall mv' :: mv' >= mv ==> HysteresisIndex(prev, mv) <= HysteresisIndex(prev, mv')
    ensures forall prev' :: prev <= prev' <= 2 ==> HysteresisIndex(prev, mv) <= HysteresisIndex(prev', mv)
    ensures (forall p :: 0 <= p <= 2 ==> HysteresisIndex(p, mv) == PlainIndex(mv)) <==> !InBand(0, mv) && !InBand(1, mv)
  {
    if InBand(0, mv) || InBand(1, mv) {
      assert HysteresisIndex(0, mv) != HysteresisIndex(2, mv);
    }
  }

  /** Boundary `k` is passed upwards only 30 mV above it and downwards only more than 30 mV below it. */
  lemma CrossesOnlyOutsideBand(prev: nat, mv: nat, k: nat)
    requires k < 2 && prev <= 2
    ensures HysteresisIndex(prev, mv) > k <==>
            (mv >= Boundary(k) + LEVEL_HYSTERESIS_MV || (prev > k && mv >= Boundary(k) - LEVEL_HYSTERESIS_MV))
  {
  }

  /** The documented rule, by which a boundary is passed only by more than 30 mV in either direction. */
  function DocumentedFloor(mv: nat): nat {
    (if mv > Boundary(0) + LEVEL_HYSTERESIS_MV then 1 else 0) + if mv > Boundary(1) + LEVEL_HYSTERESIS_MV then 1 else 0
  }

  function DocumentedIndex(prev: nat, mv: nat): nat {
    Max(DocumentedFloor(mv), Min(prev, Ceiling(mv)))
  }

  /** The code also rises at exactly 30 mV, and differs from the documented rule there alone. */
  lemma RisesAsDocumentedIff(prev: nat, mv: nat)
    requires prev <= 2
    ensures HysteresisIndex(prev, mv) == DocumentedIndex(prev, mv) <==>
            !(prev <= 0 && mv == Boundary(0) + LEVEL_HYSTERESIS_MV) &&
            !(prev <= 1 && mv == Boundary(1) + LEVEL_HYSTERESIS_MV)
  {
  }

  /** From Low, a reading of 3730 mV is Partial already. */
  lemma RisesAtMargin()
    ensures BatteryLevelBucket(Low, 3_730, false) == Partial && LevelOf(DocumentedIndex(0, 3_730)) == Low
  {
  }

  /** In millivolts: which readings take the level from where to where, with external power or without. */
  lemma LevelSteps(prev: Level, mv: nat)
    ensures BatteryLevelBucket(prev, mv, true) == Charging
    ensures prev == Unknown || prev == Charging ==>
              BatteryLevelBucket(prev, mv, false) == if mv < 3_700 then Low else if mv < 4_000 then Partial else Full
    ensures prev == Low ==>
              BatteryLevelBucket(prev, mv, false) == if mv < 3_730 then Low else if mv < 4_030 then Partial else Full
    ensures prev == Partial ==>
              BatteryLevelBucket(prev, mv, false) == if mv < 3_670 then Low else if mv < 4_030 then Partial else Full
    ensures prev == Full ==>
              BatteryLevelBucket(prev, mv, false) == if mv < 3_670 then Low else if mv < 3_970 then Partial else Full
  {
  }

  // ── Whole runs: the level cannot flap ──────────────────────────────────────

  function IndexAfter(start: nat, readings: seq<nat>): nat {
    if readings == [] then start
    else HysteresisIndex(IndexAfter(start, readings[..|readings| - 1]), readings[|readings| - 1])
  }

  /** How often the level has passed boundary `k`, in either direction. */
  function Crossings(start: nat, readings: seq<nat>, k: nat): nat {
    if readings == [] then 0
    else
      var before := readings[..|readings| - 1];
      Crossings(start, before, k) + if (IndexAfter(start, before) > k) == (IndexAfter(start, readings) > k) then 0 else 1
  }

  function Distance(a: nat, b: nat): nat {
    if a <= b then b - a else a - b
  }

  /** How far the readings have travelled in all. */
  function Variation(readings: seq<nat>): nat {
    var n := |readings|;
    if n < 2 then 0 else Variation(readings[..n - 1]) + Distance(readings[n - 2], readings[n - 1])
  }

  /** How far the last reading has come back toward the other side of the band. */
  function Retreat(above: bool, last: int, k: nat): nat
    requires k < 2
  {
    if above then Max(0, Boundary(k) + LEVEL_HYSTERESIS_MV - last)
    else Max(0, last - (Boundary(k) - LEVEL_HYSTERESIS_MV - 1))
  }

  lemma {:induction false} IndexInRange(start: nat, readings: seq<nat>)
    requires start <= 2
    ensures IndexAfter(start, readings) <= 2
  {
    if readings != [] {
      IndexInRange(start, readings[..|readings| - 1]);
    }
  }

  lemma {:induction false} CrossingsCostVariation(start: nat, readings: seq<nat>, k: nat)
    requires start <= 2 && k < 2 && Crossings(start, readings, k) > 0
    ensures 61 * (Crossings(start, readings, k) - 1)
            + Retreat(IndexAfter(start, readings) > k, readings[|readings| - 1], k) <= Variation(readings)
  {
    var n := |readings| - 1;
    var before := readings[..n];
    IndexInRange(start, before);
    CrossesOnlyOutsideBand(IndexAfter(start, before), readings[n], k);
    if Crossings(start, before, k) > 0 {
      CrossingsCostVariation(start, before, k);
      assert before[n - 1] == readings[n - 1];
    }
  }

  /** On any run without external power, passing a boundary again and again costs at least 61 mV of travel each time. */
  lemma LevelCannotFlap(start: nat, readings: seq<nat>, k: nat)
    requires start <= 2 && k < 2
    ensures 61 * (Crossings(start, readings, k) - 1) <= Variation(readings)
  {
    if Crossings(start, readings, k) > 0 {
      CrossingsCostVariation(start, readings, k);
    }
  }

  function LevelAfter(start: Level, readings: seq<nat>): Level {
    if readings == [] then start
    else BatteryLevelBucket(LevelAfter(start, readings[..|readings| - 1]), readings[|readings| - 1], false)
  }

  /** The reported level runs through the same buckets. */
  lemma {:induction false} LevelRunIsIndexRun(start: nat, readings: seq<nat>)
    requires start <= 2
    ensures LevelAfter(LevelOf(start), readings) == LevelOf(IndexAfter(start, readings))
  {
    if readings != [] {
      LevelRunIsIndexRun(start, readings[..|readings| - 1]);
      IndexInRange(start, readings[..|readings| - 1]);
    }
  }

  // ── The percentage curve ───────────────────────────────────────────────────

  const BATTERY_EMPTY_MV := 3_300
  const RESTING_FULL_MV := 4_150

  datatype Point = Point(mv: nat, pct: nat)

  const CURVE: seq<Point> :=
    [Point(BATTERY_EMPTY_MV, 0), Point(3_500, 5), Point(3_600, 10), Point(3_700, 20), Point(3_750, 30),
     Point(3_800, 42), Point(3_850, 55), Point(3_900, 67), Point(3_950, 77), Point(4_000, 85), Point(4_050, 91),
     Point(4_100, 96), Point(RESTING_FULL_MV, 100)]

  lemma CurveAscends(i: nat, j: nat)
    requires i < j < |CURVE|
    ensures CURVE[i].mv < CURVE[j].mv && CURVE[i].pct < CURVE[j].pct
    decreases j - i
  {
    if i + 1 < j {
      CurveAscends(i + 1, j);
    }
  }

  /** Linear between two neighbouring points; `p` is the reading's percentage when `mv` lies between them. */
  function Between(lo: Point, hi: Point, mv: nat): nat
    requires lo.mv < hi.mv && lo.pct < hi.pct && lo.mv <= mv
  {
    ProductOrder(0, mv - lo.mv, hi.pct - lo.pct);
    QuotientOrder(0, (mv - lo.mv) * (hi.pct - lo.pct), hi.mv - lo.mv);
    lo.pct + (mv - lo.mv) * (hi.pct - lo.pct) / (hi.mv - lo.mv)
  }

  /** `p` is a possible percentage of `mv`: below the curve 0, above it 100, else on the segment that holds `mv`. */
  ghost predicate OnCurve(mv: nat, p: nat) {
    && (mv <= BATTERY_EMPTY_MV ==> p == 0)
    && (mv >= RESTING_FULL_MV ==> p == 100)
    && (BATTERY_EMPTY_MV < mv < RESTING_FULL_MV ==> exists i: nat :: OnSegment(i, mv, p))
  }

  ghost predicate OnSegment(i: nat, mv: nat, p: nat) {
    && i + 1 < |CURVE| && CURVE[i].mv < mv <= CURVE[i + 1].mv
    && CURVE[i].mv < CURVE[i + 1].mv && CURVE[i].pct < CURVE[i + 1].pct
    && p == Between(CURVE[i], CURVE[i + 1], mv)
  }

  /** The loop always returns: the fallback behind it is never reached. */
  method PercentFromMillivolts(mv: nat) returns (p: nat)
    ensures OnCurve(mv, p)
  {
    if mv <= BATTERY_EMPTY_MV {
      return 0;
    }
    if mv >= RESTING_FULL_MV {
      return 100;
    }
    for i := 0 to |CURVE| - 1
      invariant CURVE[i].mv < mv
    {
      var lo, hi := CURVE[i], CURVE[i + 1];
      CurveAscends(i, i + 1);
      if mv <= hi.mv {
        ProductOrder(0, mv - lo.mv, hi.pct - lo.pct);
        p := lo.pct + (mv - lo.mv) * (hi.pct - lo.pct) / (hi.mv - lo.mv);
        assert OnSegment(i, mv, p);
        return;
      }
    }
    assert false;
  }

  /** Between two neighbouring points the percentage is the straight line between them, rounded down. */
  lemma PercentBetween(i: nat, mv: nat, p: nat)
    requires i + 1 < |CURVE| && CURVE[i].mv < mv <= CURVE[i + 1].mv && OnCurve(mv, p)
    ensures var lo, hi := CURVE[i], CURVE[i + 1];
            && lo.pct <= p
            && (p - lo.pct) * (hi.mv - lo.mv) <= (mv - lo.mv) * (hi.pct - lo.pct)
            && (mv - lo.mv) * (hi.pct - lo.pct) < (p - lo.pct + 1) * (hi.mv - lo.mv)
  {
    OwnSegment(i, mv, p);
    StraightLine(CURVE[i], CURVE[i + 1], mv);
  }

  /** The curve has the percentage of the segment that holds `mv`, and no other. */
  lemma OwnSegment(i: nat, mv: nat, p: nat)
    requires i + 1 < |CURVE| && CURVE[i].mv < mv <= CURVE[i + 1].mv && OnCurve(mv, p)
    ensures OnSegment(i, mv, p)
  {
    CurveAscends(i, i + 1);
    if i > 0 {
      CurveAscends(0, i);
    }
    if mv < RESTING_FULL_MV {
      var j: nat :| OnSegment(j, mv, p);
      if i < j {
        LaterSegment(i, j);
      } else if j < i {
        LaterSegment(j, i);
      }
    } else if i + 1 < |CURVE| - 1 {
      CurveAscends(i + 1, |CURVE| - 1);
    }
  }

  lemma StraightLine(lo: Point, hi: Point, mv: nat)
    requires lo.mv < hi.mv && lo.pct < hi.pct && lo.mv <= mv
    ensures var p := Between(lo, hi, mv);
            && lo.pct <= p
            && (p - lo.pct) * (hi.mv - lo.mv) <= (mv - lo.mv) * (hi.pct - lo.pct)
            && (mv - lo.mv) * (hi.pct - lo.pct) < (p - lo.pct + 1) * (hi.mv - lo.mv)
  {
    RoundedDown(mv - lo.mv, hi.pct - lo.pct, hi.mv - lo.mv);
  }

  lemma RoundedDown(x: nat, num: nat, den: nat)
    requires den > 0
    ensures 0 <= x * num / den && x * num / den * den <= x * num < (x * num / den + 1) * den
  {
    ScaledDown(x, num, den);
    var q := x * num / den;
    assert x * num == q * den + x * num % den;
    assert (q + 1) * den == q * den + den;
  }

  /** The table of the curve, and its ends. */
  lemma PercentTable(mv: nat, p: nat)
    requires OnCurve(mv, p)
    ensures (mv <= 3_300 ==> p == 0) && (mv >= 4_150 ==> p == 100)
    ensures (mv == 3_500 ==> p == 5) && (mv == 3_600 ==> p == 10) && (mv == 3_700 ==> p == 20)
    ensures (mv == 3_750 ==> p == 30) && (mv == 3_800 ==> p == 42) && (mv == 3_850 ==> p == 55)
    ensures (mv == 3_900 ==> p == 67) && (mv == 3_950 ==> p == 77) && (mv == 4_000 ==> p == 85)
    ensures (mv == 4_050 ==> p == 91) && (mv == 4_100 ==> p == 96)
  {
    if mv in [3_500, 3_600, 3_700, 3_750, 3_800, 3_850, 3_900, 3_950, 4_000, 4_050, 4_100] {
      var i: nat := if mv <= 3_700 then (mv - 3_400) / 100 else (mv - 3_550) / 50;
      PercentAtBreakpoints(i, p);
    }
  }

  lemma ScaledOrder(a: nat, b: nat, num: nat, den: nat)
    requires a <= b && den > 0
    ensures a * num / den <= b * num / den
  {
    ProductOrder(a, b, num);
    QuotientOrder(a * num, b * num, den);
  }

  /** On a segment the percentage stays within its ends, is the upper end's exactly at the upper end, and rises. */
  lemma SegmentRises(lo: Point, hi: Point, a: nat, b: nat)
    requires lo.mv < hi.mv && lo.pct < hi.pct && lo.mv <= a <= b <= hi.mv
    ensures lo.pct <= Between(lo, hi, a) <= Between(lo, hi, b) <= hi.pct
    ensures Between(lo, hi, hi.mv) == hi.pct
  {
    var num: nat, den: nat := hi.pct - lo.pct, hi.mv - lo.mv;
    var x: nat, y: nat := a - lo.mv, b - lo.mv;
    ScaledOrder(x, y, num, den);
    ScaledOrder(y, den, num, den);
    DivModUnique(den * num, den, num, 0);
    ScaledDown(x, num, den);
  }

  lemma ScaledDown(x: nat, num: nat, den: nat)
    requires den > 0
    ensures 0 <= x * num / den
  {
    ProductOrder(0, x, num);
    QuotientOrder(0, x * num, den);
  }

  /** More millivolts never mean less charge, over all readings. */
  lemma PercentMonotone(a: nat, b: nat, p: nat, q: nat)
    requires a <= b && OnCurve(a, p) && OnCurve(b, q)
    ensures 0 <= p <= q <= 100
  {
    PercentInRange(a, p);
    PercentInRange(b, q);
    if BATTERY_EMPTY_MV < a && b < RESTING_FULL_MV {
      var i: nat :| OnSegment(i, a, p);
      var j: nat :| OnSegment(j, b, q);
      SegmentRises(CURVE[i], CURVE[i + 1], a, a);
      SegmentRises(CURVE[j], CURVE[j + 1], b, b);
      if i == j {
        SegmentRises(CURVE[i], CURVE[i + 1], a, b);
      } else if i < j {
        LaterSegment(i, j);
      } else {
        LaterSegment(j, i);
      }
    }
  }

  lemma LaterSegment(i: nat, j: nat)
    requires i < j < |CURVE| - 1
    ensures CURVE[i + 1].mv <= CURVE[j].mv && CURVE[i + 1].pct <= CURVE[j].pct
  {
    if i + 1 < j {
      CurveAscends(i + 1, j);
    }
  }

  lemma PercentInRange(mv: nat, p: nat)
    requires OnCurve(mv, p)
    ensures 0 <= p <= 100
  {
    if BATTERY_EMPTY_MV < mv < RESTING_FULL_MV {
      var i: nat :| OnSegment(i, mv, p);
      SegmentRises(CURVE[i], CURVE[i + 1], mv, mv);
      if i + 1 < |CURVE| - 1 {
        CurveAscends(i + 1, |CURVE| - 1);
      }
    }
  }

  /** Every breakpoint of the curve is hit exactly, and the percentage of a reading is unique. */
  lemma PercentAtBreakpoints(i: nat, p: nat)
    requires i < |CURVE| && OnCurve(CURVE[i].mv, p)
    ensures p == CURVE[i].pct
  {
    var mv := CURVE[i].mv;
    if 0 < i < |CURVE| - 1 {
      CurveAscends(0, i);
      CurveAscends(i, |CURVE| - 1);
      CurveAscends(i - 1, i);
      SegmentRises(CURVE[i - 1], CURVE[i], mv, mv);
      assert OnSegment(i - 1, mv, CURVE[i].pct);
      PercentUnique(mv, p, CURVE[i].pct);
    }
  }

  lemma PercentUnique(mv: nat, p: nat, q: nat)
    requires OnCurve(mv, p) && OnCurve(mv, q)
    ensures p == q
  {
    PercentMonotone(mv, mv, p, q);
    PercentMonotone(mv, mv, q, p);
  }
}
