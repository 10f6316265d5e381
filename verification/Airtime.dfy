/**
 * The sliding-window airtime budget: a 32-slot ring that stands for an unbounded ledger of transmissions, and
 * what duty cycle whole runs keep because of it.
 */
module Airtime {
  import opened Words
  import opened Arith
  import opened Ring

  const BUDGET_WINDOW_MS := 60_000
  const BUDGET_MAX_MS := 6_000
  const BUDGET_SLOTS := 32

  datatype TxRecord = TxRecord(start: nat, duration: nat)

  /** Airtime of the ledger's transmissions that start at or after `cutoff`. */
  function Used(ledger: seq<TxRecord>, cutoff: int): nat {
    if ledger == [] then 0
    else
      var last := ledger[|ledger| - 1];
      Used(ledger[..|ledger| - 1], cutoff) + if last.start >= cutoff then last.duration else 0
  }

  /** Airtime of the transmissions that start in the closed window of 60 s beginning at `lo`. */
  function InWindow(ledger: seq<TxRecord>, lo: int): nat {
    if ledger == [] then 0
    else
      var last := ledger[|ledger| - 1];
      InWindow(ledger[..|ledger| - 1], lo) +
      if lo <= last.start <= lo + BUDGET_WINDOW_MS then last.duration else 0
  }

  /** The promise: no 60 s window, wherever it lies, carries more than 6 s of airtime. */
  ghost predicate DutyCycle(ledger: seq<TxRecord>) {
    forall lo: int :: InWindow(ledger, lo) <= BUDGET_MAX_MS
  }

  /** How long the transmission is on the air within the 60 s that begin at `lo`. */
  function Overlap(r: TxRecord, lo: int): nat {
    Max(0, Min(r.start + r.duration, lo + BUDGET_WINDOW_MS) - Max(r.start, lo))
  }

  function OnAir(ledger: seq<TxRecord>, lo: int): nat {
    if ledger == [] then 0 else OnAir(ledger[..|ledger| - 1], lo) + Overlap(ledger[|ledger| - 1], lo)
  }

  /** The same promise by the time actually spent on the air, from whichever side a transmission enters the window. */
  ghost predicate OnAirDutyCycle(ledger: seq<TxRecord>) {
    forall lo: int :: OnAir(ledger, lo) <= BUDGET_MAX_MS
  }

  /** The radio sends one frame at a time: each transmission ends before the next one starts. */
  ghost predicate OneAtATime(ledger: seq<TxRecord>) {
    forall i, j :: 0 <= i < j < |ledger| ==> ledger[i].start + ledger[i].duration <= ledger[j].start
  }

  function Cutoff(now: nat): nat {
    SatSub(now, BUDGET_WINDOW_MS)
  }

  /** What the ring answers: the sum over the newest 32 entries only. */
  predicate RingGrants(ledger: seq<TxRecord>, now: nat, required: nat) {
    Used(Recent(ledger, BUDGET_SLOTS), Cutoff(now)) + required <= BUDGET_MAX_MS
  }

  /** What an unbounded ledger would answer. */
  predicate LedgerGrants(ledger: seq<TxRecord>, now: nat, required: nat) {
    Used(ledger, Cutoff(now)) + required <= BUDGET_MAX_MS
  }

  class AirtimeBudget {
    const records: array<TxRecord>
    var head: nat
    var count: nat
    /** Every transmission ever recorded. */
    ghost var ledger: seq<TxRecord>

    ghost predicate Valid()
      reads this, records
    {
      records.Length == BUDGET_SLOTS && Holds(records[..], head, count, ledger)
    }

    constructor ()
      ensures Valid() && fresh(records)
      ensures ledger == []
    {
      records := new TxRecord[BUDGET_SLOTS](_ => TxRecord(0, 0));
      head, count, ledger := 0, 0, [];
    }

    method UsedInWindow(now: u64) returns (total: nat)
      requires Valid()
      ensures total == Used(Recent(ledger, BUDGET_SLOTS), Cutoff(now))
    {
      var cutoff := SatSub(now, BUDGET_WINDOW_MS);
      var n := Min(count, BUDGET_SLOTS);
      total := 0;
      for i := 0 to n
        invariant total == Used(records[..i], cutoff)
      {
        var r := records[i];
        assert records[..i + 1][..i] == records[..i];
        if r.start >= cutoff {
          total := total + r.duration;
        }
      }
      RotationKeepsUsed(records[..], head, count, cutoff);
    }

    method CanTransmit(now: u64, required: u32) returns (ok: bool)
      requires Valid()
      ensures ok == RingGrants(ledger, now, required)
    {
      var used := UsedInWindow(now);
      ok := used + required <= BUDGET_MAX_MS;
    }

    method RecordTx(now: u64, duration: u32)
      requires Valid()
      modifies this, records
      ensures Valid()
      ensures ledger == old(ledger) + [TxRecord(now, duration)]
    {
      PushKeepsHolds(records[..], head, count, ledger, TxRecord(now, duration));
      ghost var slots' := records[..][head := TxRecord(now, duration)];
      records[head] := TxRecord(now, duration);
      assert records[..] == slots';
      head := (head + 1) % BUDGET_SLOTS;
      if count < BUDGET_SLOTS {
        count := count + 1;
      }
      ledger := ledger + [TxRecord(now, duration)];
    }
  }

  // ── Sums over ledgers ──────────────────────────────────────────────────────

  lemma {:induction false} UsedConcat(a: seq<TxRecord>, b: seq<TxRecord>, cutoff: int)
    ensures Used(a + b, cutoff) == Used(a, cutoff) + Used(b, cutoff)
  {
    if b == [] {
      assert a + b == a;
    } else {
      var b' := b[..|b| - 1];
      UsedConcat(a, b', cutoff);
      assert (a + b)[..|a + b| - 1] == a + b';
    }
  }

  /** The order in which the ring is scanned does not change the sum. */
  lemma RotationKeepsUsed(slots: seq<TxRecord>, head: nat, count: nat, cutoff: int)
    requires Shape(slots, head, count)
    ensures Used(slots[..count], cutoff) == Used(Contents(slots, head, count), cutoff)
  {
    if count == |slots| {
      UsedConcat(slots[..head], slots[head..], cutoff);
      UsedConcat(slots[head..], slots[..head], cutoff);
      assert slots[..count] == slots[..head] + slots[head..];
    }
  }

  /** The older part of a ledger and its newest 32 entries add up. */
  lemma SplitUsed(ledger: seq<TxRecord>, cutoff: int)
    requires |ledger| > BUDGET_SLOTS
    ensures Used(ledger, cutoff) ==
            Used(ledger[..|ledger| - BUDGET_SLOTS], cutoff) + Used(Recent(ledger, BUDGET_SLOTS), cutoff)
  {
    var k := |ledger| - BUDGET_SLOTS;
    UsedConcat(ledger[..k], ledger[k..], cutoff);
    assert ledger == ledger[..k] + ledger[k..];
  }

  lemma {:induction false} NothingUsedBefore(ledger: seq<TxRecord>, cutoff: int)
    requires forall i :: 0 <= i < |ledger| ==> ledger[i].start < cutoff
    ensures Used(ledger, cutoff) == 0
  {
    if ledger != [] {
      NothingUsedBefore(ledger[..|ledger| - 1], cutoff);
    }
  }

  lemma {:induction false} AllUsedAfter(ledger: seq<TxRecord>, cutoff: int, least: nat)
    requires forall i :: 0 <= i < |ledger| ==> ledger[i].start >= cutoff && ledger[i].duration >= least
    ensures Used(ledger, cutoff) >= |ledger| * least
  {
    if ledger != [] {
      AllUsedAfter(ledger[..|ledger| - 1], cutoff, least);
      assert |ledger| * least == (|ledger| - 1) * least + least;
    }
  }

  /** A window that ends at or after every cutoff-ed start is covered by the cutoff sum. */
  lemma {:induction false} WindowWithinUsed(ledger: seq<TxRecord>, lo: int, cutoff: int)
    requires cutoff <= lo || (cutoff == 0 && lo <= 0)
    ensures InWindow(ledger, lo) <= Used(ledger, cutoff)
  {
    if ledger != [] {
      WindowWithinUsed(ledger[..|ledger| - 1], lo, cutoff);
    }
  }

  // ── When the ring's answer is the ledger's ─────────────────────────────────

  ghost predicate Sorted(ledger: seq<TxRecord>) {
    forall i, j :: 0 <= i <= j < |ledger| ==> ledger[i].start <= ledger[j].start
  }

  ghost predicate Positive(ledger: seq<TxRecord>) {
    forall i :: 0 <= i < |ledger| ==> ledger[i].duration > 0
  }

  /** The 33rd newest transmission, the newest one the ring has overwritten, has left the window. */
  predicate OverwrittenHasLeft(ledger: seq<TxRecord>, now: nat) {
    |ledger| > BUDGET_SLOTS ==> ledger[|ledger| - BUDGET_SLOTS - 1].start < Cutoff(now)
  }

  lemma RingSumExact(ledger: seq<TxRecord>, now: nat)
    requires Sorted(ledger) && Positive(ledger)
    ensures Used(Recent(ledger, BUDGET_SLOTS), Cutoff(now)) <= Used(ledger, Cutoff(now))
    ensures Used(Recent(ledger, BUDGET_SLOTS), Cutoff(now)) == Used(ledger, Cutoff(now)) <==>
            OverwrittenHasLeft(ledger, now)
  {
    if |ledger| > BUDGET_SLOTS {
      var older := ledger[..|ledger| - BUDGET_SLOTS];
      SplitUsed(ledger, Cutoff(now));
      if OverwrittenHasLeft(ledger, now) {
        NothingUsedBefore(older, Cutoff(now));
      }
    }
  }

  /**
   * For time-ordered transmissions of positive length, the ring decides every request as the unbounded ledger
   * would exactly when the newest overwritten transmission has left the window, or the ring alone refuses all.
   */
  lemma RingDecisionExact(ledger: seq<TxRecord>, now: nat)
    requires Sorted(ledger) && Positive(ledger)
    ensures (forall required: nat :: RingGrants(ledger, now, required) <==> LedgerGrants(ledger, now, required)) <==>
            (OverwrittenHasLeft(ledger, now) || !RingGrants(ledger, now, 0))
  {
    RingSumExact(ledger, now);
    var ring := Used(Recent(ledger, BUDGET_SLOTS), Cutoff(now));
    if !OverwrittenHasLeft(ledger, now) && RingGrants(ledger, now, 0) {
      var required: nat := BUDGET_MAX_MS - ring;
      assert RingGrants(ledger, now, required) && !LedgerGrants(ledger, now, required);
    }
  }

  // ── Whole runs ─────────────────────────────────────────────────────────────

  /** The ledgers a device can produce: the clock never runs back and every transmission was granted. */
  ghost predicate Granted(ledger: seq<TxRecord>) {
    ledger == [] ||
    var n := |ledger| - 1;
    && Granted(ledger[..n])
    && (n > 0 ==> ledger[n - 1].start <= ledger[n].start)
    && RingGrants(ledger[..n], ledger[n].start, ledger[n].duration)
  }

  lemma {:induction false} GrantedIsSorted(ledger: seq<TxRecord>)
    requires Granted(ledger)
    ensures Sorted(ledger)
  {
    if ledger != [] {
      var n := |ledger| - 1;
      GrantedIsSorted(ledger[..n]);
      assert forall i :: 0 <= i < n ==> ledger[i] == ledger[..n][i];
    }
  }

  ghost predicate LastAtLeast(ledger: seq<TxRecord>, least: nat) {
    forall i :: 0 <= i < |ledger| ==> ledger[i].duration >= least
  }

  /** With 182 ms frames 32 of them in the window already refuse the 33rd, so a grant never looks past the ring. */
  lemma LongFramesMakeRingExact(ledger: seq<TxRecord>, now: nat, required: nat)
    requires Sorted(ledger) && LastAtLeast(ledger, 182) && required >= 182
    requires RingGrants(ledger, now, required)
    requires |ledger| > 0 ==> ledger[|ledger| - 1].start <= now
    ensures LedgerGrants(ledger, now, required)
  {
    RingSumExact(ledger, now);
    if !OverwrittenHasLeft(ledger, now) {
      var recent := Recent(ledger, BUDGET_SLOTS);
      AllUsedAfter(recent, Cutoff(now), 182);
      assert false;
    }
  }

  /** One more transmission granted by the full ledger keeps every window within the budget. */
  lemma LedgerGrantKeepsDutyCycle(ledger: seq<TxRecord>, r: TxRecord)
    requires DutyCycle(ledger)
    requires LedgerGrants(ledger, r.start, r.duration)
    ensures DutyCycle(ledger + [r])
  {
    forall lo: int
      ensures InWindow(ledger + [r], lo) <= BUDGET_MAX_MS
    {
      assert (ledger + [r])[..|ledger|] == ledger;
      assert InWindow(ledger, lo) <= BUDGET_MAX_MS;
      if lo <= r.start <= lo + BUDGET_WINDOW_MS {
        WindowWithinUsed(ledger, lo, Cutoff(r.start));
      }
    }
  }

  /** The duty cycle over whole runs of frames of at least 182 ms. */
  lemma {:induction false} LongFramesKeepDutyCycle(ledger: seq<TxRecord>)
    requires Granted(ledger) && LastAtLeast(ledger, 182)
    ensures DutyCycle(ledger)
  {
    if ledger != [] {
      var n := |ledger| - 1;
      var before, r := ledger[..n], ledger[n];
      LongFramesKeepDutyCycle(before);
      GrantedIsSorted(ledger);
      LongFramesMakeRingExact(before, r.start, r.duration);
      LedgerGrantKeepsDutyCycle(before, r);
      assert before + [r] == ledger;
    }
  }

  // ── Time on the air ────────────────────────────────────────────────────────

  lemma {:induction false} OnAirConcat(a: seq<TxRecord>, b: seq<TxRecord>, lo: int)
    ensures OnAir(a + b, lo) == OnAir(a, lo) + OnAir(b, lo)
    ensures InWindow(a + b, lo) == InWindow(a, lo) + InWindow(b, lo)
  {
    if b == [] {
      assert a + b == a;
    } else {
      var b' := b[..|b| - 1];
      OnAirConcat(a, b', lo);
      assert (a + b)[..|a + b| - 1] == a + b';
    }
  }

  /** No transmission is under way at `lo`: whatever is on the air in the window also starts in it. */
  lemma {:induction false} OnAirWithinStarts(ledger: seq<TxRecord>, lo: int)
    requires forall i :: 0 <= i < |ledger| ==> ledger[i].start + ledger[i].duration <= lo || lo <= ledger[i].start
    ensures OnAir(ledger, lo) <= InWindow(ledger, lo)
  {
    if ledger != [] {
      OnAirWithinStarts(ledger[..|ledger| - 1], lo);
    }
  }

  lemma {:induction false} NotOnAirAfter(ledger: seq<TxRecord>, lo: int)
    requires forall i :: 0 <= i < |ledger| ==> ledger[i].start + ledger[i].duration <= lo
    ensures OnAir(ledger, lo) == 0
  {
    if ledger != [] {
      NotOnAirAfter(ledger[..|ledger| - 1], lo);
    }
  }

  function EndOf(ledger: seq<TxRecord>): nat {
    if ledger == [] then 0 else ledger[|ledger| - 1].start + ledger[|ledger| - 1].duration
  }

  /**
   * Moving the window forward from `s` to `lo` loses nothing that starts after `lo`, and gains at most what fits,
   * one transmission at a time, between the two ends of the window.
   */
  lemma {:induction false} OnAirOfShiftedWindow(ledger: seq<TxRecord>, s: int, lo: int)
    requires OneAtATime(ledger) && s <= lo
    requires forall i :: 0 <= i < |ledger| ==> lo <= ledger[i].start
    ensures OnAir(ledger, lo) <=
            InWindow(ledger, s) + Max(0, Min(lo, EndOf(ledger) - BUDGET_WINDOW_MS) - s)
  {
    if ledger != [] {
      var n := |ledger| - 1;
      OnAirOfShiftedWindow(ledger[..n], s, lo);
      if n > 0 {
        assert ledger[n - 1].start + ledger[n - 1].duration <= ledger[n].start;
      }
    }
  }

  /** One frame at a time, the duty cycle counted by starts bounds the time actually spent on the air. */
  lemma OnAirWithinDutyCycle(ledger: seq<TxRecord>)
    requires DutyCycle(ledger) && OneAtATime(ledger)
    ensures OnAirDutyCycle(ledger)
  {
    forall lo: int
      ensures OnAir(ledger, lo) <= BUDGET_MAX_MS
    {
      if i :| 0 <= i < |ledger| && ledger[i].start < lo < ledger[i].start + ledger[i].duration {
        OnAirAround(ledger, i, lo);
      } else {
        OnAirWithinStarts(ledger, lo);
        assert InWindow(ledger, lo) <= BUDGET_MAX_MS;
      }
    }
  }

  /** Transmission `i` is under way at `lo`: compare with the window that begins where it started. */
  lemma OnAirAround(ledger: seq<TxRecord>, i: nat, lo: int)
    requires DutyCycle(ledger) && OneAtATime(ledger) && i < |ledger|
    requires ledger[i].start < lo < ledger[i].start + ledger[i].duration
    ensures OnAir(ledger, lo) <= BUDGET_MAX_MS
  {
    var r, after := ledger[i], ledger[i + 1..];
    SumsSplitAt(ledger, i, lo);
    SumsSplitAt(ledger, i, r.start);
    assert InWindow(ledger, r.start) <= BUDGET_MAX_MS;
    NotOnAirAfter(ledger[..i], lo);
    OnAirOfShiftedWindow(after, r.start, lo);
  }

  lemma SumsSplitAt(ledger: seq<TxRecord>, i: nat, lo: int)
    requires i < |ledger|
    ensures OnAir(ledger, lo) == OnAir(ledger[..i], lo) + Overlap(ledger[i], lo) + OnAir(ledger[i + 1..], lo)
    ensures InWindow(ledger, lo) >=
            InWindow(ledger[i + 1..], lo)
            + if lo <= ledger[i].start <= lo + BUDGET_WINDOW_MS then ledger[i].duration else 0
  {
    var upTo := ledger[..i + 1];
    assert upTo[..i] == ledger[..i] && ledger == upTo + ledger[i + 1..];
    OnAirConcat(upTo, ledger[i + 1..], lo);
  }

  /** `n` back-to-back transmissions of `d` ms each. */
  function Burst(d: nat, n: nat): (ledger: seq<TxRecord>)
    ensures |ledger| == n && forall i :: 0 <= i < n ==> ledger[i] == TxRecord(i * d, d)
  {
    seq(n, i requires 0 <= i < n => TxRecord(i * d, d))
  }

  ghost predicate NoneAbove(ledger: seq<TxRecord>, most: nat) {
    forall i :: 0 <= i < |ledger| ==> ledger[i].duration <= most
  }

  lemma {:induction false} UsedAtMost(ledger: seq<TxRecord>, cutoff: int, most: nat)
    requires NoneAbove(ledger, most)
    ensures Used(ledger, cutoff) <= |ledger| * most
  {
    if ledger != [] {
      UsedAtMost(ledger[..|ledger| - 1], cutoff, most);
      assert |ledger| * most == (|ledger| - 1) * most + most;
    }
  }

  /** Below 182 ms the ring can hold 32 frames and still grant another one, for ever. */
  lemma {:induction false} BurstIsGranted(d: nat, n: nat)
    requires d <= 181
    ensures Granted(Burst(d, n))
  {
    if n > 0 {
      var before, start := Burst(d, n - 1), (n - 1) * d;
      BurstIsGranted(d, n - 1);
      ShortFramesAreGranted(before, d, start);
      if n > 1 {
        ProductOrder(n - 2, n - 1, d);
        assert before[n - 2].start == (n - 2) * d;
      }
      GrantedPush(before, TxRecord(start, d));
      assert Burst(d, n) == before + [TxRecord(start, d)];
    }
  }

  lemma GrantedPush(ledger: seq<TxRecord>, r: TxRecord)
    requires Granted(ledger) && RingGrants(ledger, r.start, r.duration)
    requires ledger != [] ==> ledger[|ledger| - 1].start <= r.start
    ensures Granted(ledger + [r])
  {
    assert (ledger + [r])[..|ledger|] == ledger;
  }

  lemma ShortFramesAreGranted(ledger: seq<TxRecord>, d: nat, now: nat)
    requires d <= 181 && NoneAbove(ledger, d)
    ensures RingGrants(ledger, now, d)
  {
    var recent := Recent(ledger, BUDGET_SLOTS);
    UsedAtMost(recent, Cutoff(now), d);
    ProductOrder(|recent|, 32, d);
  }

  lemma BurstTimes(d: nat, n: nat)
    ensures OneAtATime(Burst(d, n))
    ensures forall i :: 0 <= i < n ==> Burst(d, n)[i].start + Burst(d, n)[i].duration <= n * d
  {
    forall i, j | 0 <= i < j <= n
      ensures i * d + d <= j * d
    {
      ProductOrder(i + 1, j, d);
      assert (i + 1) * d == i * d + d;
    }
  }

  /** Transmissions that lie in the window altogether are on the air, and counted by start, for all of their time. */
  lemma {:induction false} AllInside(ledger: seq<TxRecord>, d: nat)
    requires forall i :: 0 <= i < |ledger| ==>
               ledger[i].duration == d && ledger[i].start + ledger[i].duration <= BUDGET_WINDOW_MS
    ensures OnAir(ledger, 0) == InWindow(ledger, 0) == |ledger| * d
  {
    if ledger != [] {
      AllInside(ledger[..|ledger| - 1], d);
      assert |ledger| * d == (|ledger| - 1) * d + d;
    }
  }

  /** Any constant airtime from 1 to 181 ms has a granted run of non-overlapping frames that breaks the promise. */
  lemma ShortFramesBreakDutyCycle(d: nat)
    requires 1 <= d <= 181
    ensures var ledger := Burst(d, BUDGET_MAX_MS / d + 1);
            Granted(ledger) && OneAtATime(ledger) && !DutyCycle(ledger) && !OnAirDutyCycle(ledger)
  {
    var q := BUDGET_MAX_MS / d;
    assert BUDGET_MAX_MS == q * d + BUDGET_MAX_MS % d;
    assert (q + 1) * d == q * d + d;
    BurstBreaksDutyCycle(d, q + 1);
  }

  lemma BurstBreaksDutyCycle(d: nat, n: nat)
    requires d <= 181 && BUDGET_MAX_MS < n * d <= BUDGET_MAX_MS + d
    ensures var ledger := Burst(d, n);
            Granted(ledger) && OneAtATime(ledger) && !DutyCycle(ledger) && !OnAirDutyCycle(ledger)
  {
    var ledger := Burst(d, n);
    BurstIsGranted(d, n);
    BurstTimes(d, n);
    AllInside(ledger, d);
    assert InWindow(ledger, 0) > BUDGET_MAX_MS && OnAir(ledger, 0) > BUDGET_MAX_MS;
  }

  // ── LoRa time on air, and the exact frame length that keeps the duty cycle ──

  /** SF7, 62.5 kHz, CR 4/5, 8-symbol preamble: symbols of 2.048 ms, 12.25 + 8 + 5k of them, in microseconds. */
  function LoraAirtimeMs(payloadBytes: nat): nat {
    CeilDiv(41_472 + 10_240 * CeilDiv(8 * payloadBytes + 16, 28), 1_000)
  }

  /**
   * The formula of the data sheet, in milliseconds: symbols of 2^7 / 62 500 s, a preamble of 8 + 4.25 of them, and
   * 8 + 5 ceil(max(8 n - 28 + 28 + 16, 0) / 28) of them for `n` bytes.
   */
  function AirtimeFormula(payloadBytes: nat): real {
    var symbol := 128.0 / 62_500.0 * 1_000.0;
    var numerator := 8.0 * payloadBytes as real - 4.0 * 7.0 + 28.0 + 16.0 * 1.0 - 20.0 * 0.0;
    var blocks := Ceiling((if numerator < 0.0 then 0.0 else numerator) / (4.0 * 7.0));
    (8.0 + 4.25) * symbol + (8.0 + blocks as real * (1.0 + 4.0)) * symbol
  }

  function Ceiling(x: real): int {
    -(-x).Floor
  }

  lemma CeilingIs(x: real, n: int)
    requires n as real - 1.0 < x <= n as real
    ensures Ceiling(x) == n
  {
  }

  /** The airtime of every frame is what the formula gives, rounded up to milliseconds. */
  lemma AirtimeIsFormula(len: nat)
    ensures LoraAirtimeMs(len) == Ceiling(AirtimeFormula(len))
  {
    var k := AirtimeBrackets(len);
    var r := LoraAirtimeMs(len);
    CeilingIs((8 * len + 16) as real / 28.0, k);
    assert AirtimeFormula(len) == (41_472 + 10_240 * k) as real / 1_000.0;
    CeilingIs(AirtimeFormula(len), r);
  }

  /** Blocks of 28 bits, whole microseconds, whole milliseconds: each rounded up by less than one. */
  lemma AirtimeBrackets(len: nat) returns (k: nat)
    ensures 28 * (k - 1) < 8 * len + 16 <= 28 * k
    ensures 1_000 * (LoraAirtimeMs(len) - 1) < 41_472 + 10_240 * k <= 1_000 * LoraAirtimeMs(len)
  {
    k := CeilDiv(8 * len + 16, 28);
  }

  /** Seven more bytes are two more blocks, 20 480 µs before rounding; 255 bytes take 800 ms. */
  lemma SevenMoreBytes(len: nat) returns (k: nat)
    ensures 1_000 * (LoraAirtimeMs(len) - 1) < 41_472 + 10_240 * k <= 1_000 * LoraAirtimeMs(len)
    ensures 1_000 * (LoraAirtimeMs(len + 7) - 1) < 41_472 + 10_240 * k + 20_480 <= 1_000 * LoraAirtimeMs(len + 7)
    ensures LoraAirtimeMs(255) == 800
  {
    k := AirtimeBrackets(len);
    var m := AirtimeBrackets(len + 7);
    assert m == k + 2;
  }

  lemma AirtimeMonotone(a: nat, b: nat)
    requires a <= b
    ensures LoraAirtimeMs(a) <= LoraAirtimeMs(b)
  {
    assert CeilDiv(8 * a + 16, 28) <= CeilDiv(8 * b + 16, 28);
  }

  lemma AirtimeThreshold(len: nat)
    ensures LoraAirtimeMs(len) >= 182 <==> len >= 44
    ensures len <= FRAME_BUF ==> 52 <= LoraAirtimeMs(len) <= 800
  {
    if len >= 44 {
      AirtimeMonotone(44, len);
    } else {
      AirtimeMonotone(len, 43);
    }
    AirtimeMonotone(0, len);
    if len <= FRAME_BUF {
      AirtimeMonotone(len, FRAME_BUF);
    }
  }

  /** Every transmission is a frame of at least `least` bytes, recorded with its computed airtime. */
  ghost predicate FramesOf(ledger: seq<TxRecord>, least: nat) {
    forall i :: 0 <= i < |ledger| ==>
      exists len :: least <= len <= FRAME_BUF && ledger[i].duration == LoraAirtimeMs(len)
  }

  /**
   * The 10 % duty cycle, counted by starts or by time on the air, holds on every granted run of frames of at least
   * `least` bytes exactly when that is 44 or more.
   */
  lemma MinimumFrameLength(least: nat)
    requires least <= FRAME_BUF
    ensures (forall ledger: seq<TxRecord> :: Granted(ledger) && FramesOf(ledger, least) ==> DutyCycle(ledger)) <==>
            least >= 44
    ensures (forall ledger: seq<TxRecord> :: Granted(ledger) && FramesOf(ledger, least) && OneAtATime(ledger) ==>
                                               OnAirDutyCycle(ledger)) <==> least >= 44
  {
    AirtimeThreshold(least);
    if least >= 44 {
      forall ledger: seq<TxRecord> | Granted(ledger) && FramesOf(ledger, least)
        ensures DutyCycle(ledger) && (OneAtATime(ledger) ==> OnAirDutyCycle(ledger))
      {
        forall i | 0 <= i < |ledger|
          ensures ledger[i].duration >= 182
        {
          var len :| least <= len <= FRAME_BUF && ledger[i].duration == LoraAirtimeMs(len);
          AirtimeThreshold(len);
        }
        LongFramesKeepDutyCycle(ledger);
        if OneAtATime(ledger) {
          OnAirWithinDutyCycle(ledger);
        }
      }
    } else {
      var d := LoraAirtimeMs(least);
      ShortFramesBreakDutyCycle(d);
      assert FramesOf(Burst(d, BUDGET_MAX_MS / d + 1), least);
    }
  }

  lemma GrantedFramesKeepDutyCycle(ledger: seq<TxRecord>)
    requires Granted(ledger) && FramesOf(ledger, 44)
    ensures DutyCycle(ledger) && (OneAtATime(ledger) ==> OnAirDutyCycle(ledger))
  {
    MinimumFrameLength(44);
  }

  /**
   * The dispatcher's transmit step: a frame goes out only when the budget grants its airtime, and is recorded only
   * when the radio reports that it was sent. `radioOk` is the radio's answer, should it be asked.
   */
  method TryTransmit(budget: AirtimeBudget, now: u64, len: nat, radioOk: bool) returns (sent: bool)
    requires budget.Valid() && Granted(budget.ledger) && len <= FRAME_BUF
    requires budget.ledger != [] ==> budget.ledger[|budget.ledger| - 1].start <= now
    modifies budget, budget.records
    ensures budget.Valid() && Granted(budget.ledger)
    ensures sent == (RingGrants(old(budget.ledger), now, LoraAirtimeMs(len)) && radioOk)
    ensures budget.ledger == old(budget.ledger) + if sent then [TxRecord(now, LoraAirtimeMs(len))] else []
    ensures FramesOf(budget.ledger, 44) ==> DutyCycle(budget.ledger)
    ensures FramesOf(budget.ledger, 44) && OneAtATime(budget.ledger) ==> OnAirDutyCycle(budget.ledger)
  {
    AirtimeThreshold(len);
    var required := LoraAirtimeMs(len);
    var granted := budget.CanTransmit(now, required);
    sent := granted && radioOk;
    if sent {
      ghost var before := budget.ledger;
      budget.RecordTx(now, required);
      GrantedPush(before, TxRecord(now, required));
    }
    if FramesOf(budget.ledger, 44) {
      GrantedFramesKeepDutyCycle(budget.ledger);
    }
  }

  // ── Transmissions that time out ────────────────────────────────────────────

  /** One call of the radio: how long its frame is on the air, and whether the radio said it was sent. */
  datatype Attempt = Attempt(tx: TxRecord, sent: bool)

  function Recorded(attempts: seq<Attempt>): seq<TxRecord> {
    if attempts == [] then []
    else
      var last := attempts[|attempts| - 1];
      Recorded(attempts[..|attempts| - 1]) + if last.sent then [last.tx] else []
  }

  function Transmissions(attempts: seq<Attempt>): (ledger: seq<TxRecord>)
    ensures |ledger| == |attempts| && forall i :: 0 <= i < |ledger| ==> ledger[i] == attempts[i].tx
  {
    seq(|attempts|, i requires 0 <= i < |attempts| => attempts[i].tx)
  }

  /** Every attempt was granted by what had been recorded before it. */
  ghost predicate AttemptsGranted(attempts: seq<Attempt>) {
    forall i :: 0 <= i < |attempts| ==>
      RingGrants(Recorded(attempts[..i]), attempts[i].tx.start, attempts[i].tx.duration)
  }

  /** Attempts of `d` ms that all time out, one every 3 s. */
  function Futile(d: nat, n: nat): (attempts: seq<Attempt>)
    ensures |attempts| == n && forall i :: 0 <= i < n ==> attempts[i] == Attempt(TxRecord(3_000 * i, d), false)
  {
    seq(n, i requires 0 <= i < n => Attempt(TxRecord(3_000 * i, d), false))
  }

  lemma {:induction false} NothingRecorded(attempts: seq<Attempt>)
    requires forall i :: 0 <= i < |attempts| ==> !attempts[i].sent
    ensures Recorded(attempts) == []
  {
    if attempts != [] {
      NothingRecorded(attempts[..|attempts| - 1]);
    }
  }

  /**
   * A frame whose end the radio did not see is not recorded. So frames of any length that occupy the air for more
   * than 300 ms and time out break the duty cycle, no matter that each attempt was granted, with 3 s between them.
   */
  lemma TimedOutFramesBreakDutyCycle(d: nat)
    requires 300 < d <= 800
    ensures var attempts := Futile(d, 20);
            && AttemptsGranted(attempts) && Recorded(attempts) == []
            && OneAtATime(Transmissions(attempts)) && !OnAirDutyCycle(Transmissions(attempts))
  {
    var attempts := Futile(d, 20);
    NothingRecorded(attempts);
    forall i | 0 <= i < |attempts|
      ensures RingGrants(Recorded(attempts[..i]), attempts[i].tx.start, attempts[i].tx.duration)
    {
      NothingRecorded(attempts[..i]);
    }
    AllInside(Transmissions(attempts), d);
    assert OnAir(Transmissions(attempts), 0) > BUDGET_MAX_MS;
  }
}
