/**
 * From ADC samples to the settled voltage: peak-hold windows, the external-power freeze, the confirmed latch and
 * what is kept in flash across reboots.
 */
module BatteryPipeline {
  import opened Words
  import opened BatteryLevel

  const EXTERNAL_POWER_MV_THRESHOLD := 4_300
  const PEAK_WINDOW_MS := 30_000
  const PERSIST_MIN_DELTA_MV := 50
  const PERSIST_MIN_INTERVAL_MS := 300_000

  // ── The steps ──────────────────────────────────────────────────────────────

  function PollStep(settledMv: nat, liveMv: nat): (nat, bool) {
    if liveMv > EXTERNAL_POWER_MV_THRESHOLD then (settledMv, true) else (liveMv, false)
  }

  /** `(settled, charging, confirmed)` at boot, from what flash holds and the first sample. */
  function SeedBootState(persisted: Option<nat>, initialMv: nat): (nat, bool, bool) {
    var prior := if persisted.Some? then persisted.value else initialMv;
    var (settled, charging) := PollStep(prior, initialMv);
    (settled, charging, persisted.Some? || !charging)
  }

  function ShouldPersist(lastPersisted: Option<nat>, settledMv: nat, msSinceLast: nat, confirmed: bool): bool {
    confirmed &&
    match lastPersisted
    case None => true
    case Some(p) => Distance(settledMv, p) >= PERSIST_MIN_DELTA_MV && msSinceLast >= PERSIST_MIN_INTERVAL_MS
  }

  /** What a closed window does to the driver's state. */
  datatype Reading = Reading(settled: nat, charging: bool, confirmed: bool, level: Level)

  function WindowCloseStep(r: Reading, peakMv: nat): Reading {
    var (settled, charging) := PollStep(r.settled, peakMv);
    Reading(settled, charging, r.confirmed || !charging, BatteryLevelBucket(r.level, settled, charging))
  }

  // ── The peak-hold sampler ──────────────────────────────────────────────────

  function Peak(samples: seq<nat>): nat
    requires samples != []
  {
    var n := |samples| - 1;
    if n == 0 then samples[0] else Max(Peak(samples[..n]), samples[n])
  }

  lemma {:induction false} PeakIsMaximum(samples: seq<nat>)
    requires samples != []
    ensures Peak(samples) in samples
    ensures forall i :: 0 <= i < |samples| ==> samples[i] <= Peak(samples)
  {
    if |samples| > 1 {
      PeakIsMaximum(samples[..|samples| - 1]);
    }
  }

  class PeakWindowSampler {
    var windowStartMs: nat
    var peakMv: nat
    /** The samples since, and including, the one that closed the window before (or the seed). */
    ghost var samples: seq<nat>

    ghost predicate Valid()
      reads this
    {
      samples != [] && peakMv == Peak(samples)
    }

    constructor (nowMs: u64, firstSampleMv: u32)
      ensures Valid() && windowStartMs == nowMs && samples == [firstSampleMv]
    {
      windowStartMs, peakMv, samples := nowMs, firstSampleMv, [firstSampleMv];
    }

    /** Emits the window's maximum once 30 s have passed since the last emission; the closing sample counts twice. */
    method Sample(nowMs: u64, mv: u32) returns (emitted: Option<nat>)
      requires Valid()
      modifies this
      ensures Valid()
      ensures emitted.Some? <==> nowMs >= old(windowStartMs) + PEAK_WINDOW_MS
      ensures emitted.Some? ==>
                && emitted.value == Peak(old(samples) + [mv])
                && windowStartMs == nowMs && samples == [mv]
      ensures emitted.None? ==> windowStartMs == old(windowStartMs) && samples == old(samples) + [mv]
      ensures emitted.Some? ==> emitted.value == Max(old(peakMv), mv) && peakMv == mv
      ensures emitted.None? ==> peakMv == Max(old(peakMv), mv)
    {
      assert (samples + [mv])[..|samples|] == samples;
      peakMv := Max(peakMv, mv);
      samples := samples + [mv];
      if SatSub(nowMs, windowStartMs) >= PEAK_WINDOW_MS {
        var peak := peakMv;
        windowStartMs := nowMs;
        peakMv := mv;
        samples := [mv];
        emitted := Some(peak);
      } else {
        emitted := None;
      }
    }
  }

  // ── The driver, with flash behind it ───────────────────────────────────────

  datatype Driver = Driver(reading: Reading, windowStartMs: nat, peakMv: nat, windowSettled: bool,
                           lastPersisted: Option<nat>, lastPersistMs: nat)

  function Boot(flash: Option<nat>, initialMv: nat, nowMs: nat): Driver {
    var (settled, charging, confirmed) := SeedBootState(flash, initialMv);
    Driver(Reading(settled, charging, confirmed, BatteryLevelBucket(Unknown, settled, charging)), nowMs, initialMv,
           false, flash, nowMs)
  }

  predicate Closes(d: Driver, nowMs: nat) {
    SatSub(nowMs, d.windowStartMs) >= PEAK_WINDOW_MS
  }

  /** One sample, up to but without the flash write. */
  function Sampled(d: Driver, nowMs: nat, mv: nat): Driver {
    var peak := Max(d.peakMv, mv);
    if Closes(d, nowMs) then
      Driver(WindowCloseStep(d.reading, peak), nowMs, mv, true, d.lastPersisted, d.lastPersistMs)
    else Driver(d.reading, d.windowStartMs, peak, d.windowSettled, d.lastPersisted, d.lastPersistMs)
  }

  predicate Writes(d: Driver, nowMs: nat, mv: nat) {
    && Closes(d, nowMs)
    && var r := Sampled(d, nowMs, mv).reading;
       ShouldPersist(d.lastPersisted, r.settled, SatSub(nowMs, d.lastPersistMs), r.confirmed)
  }

  function Polled(d: Driver, nowMs: nat, mv: nat): Driver {
    var d' := Sampled(d, nowMs, mv);
    if Writes(d, nowMs, mv) then
      Driver(d'.reading, d'.windowStartMs, d'.peakMv, d'.windowSettled, Some(d'.reading.settled), nowMs)
    else d'
  }

  function DisplayedLevel(d: Driver): Level {
    if d.windowSettled then d.reading.level else Unknown
  }

  // ── Any sequence of boots and polls ────────────────────────────────────────

  /** A flash write may fail; the driver goes on as if it had not. */
  datatype Event = EvBoot(nowMs: nat, initialMv: nat) | EvPoll(nowMs: nat, mv: nat, writeSucceeds: bool)

  /** `writes` counts the writes asked for since the boot at `bootMs`; `asked` holds every value ever written. */
  datatype World = World(driver: Option<Driver>, flash: Option<nat>, bootMs: nat, writes: nat, asked: seq<nat>)

  function Step(w: World, e: Event): World {
    match e
    case EvBoot(nowMs, initialMv) => World(Some(Boot(w.flash, initialMv, nowMs)), w.flash, nowMs, 0, w.asked)
    case EvPoll(nowMs, mv, writeSucceeds) =>
      if w.driver.None? then w
      else
        var d := w.driver.value;
        var d' := Polled(d, nowMs, mv);
        if Writes(d, nowMs, mv) then
          World(Some(d'), if writeSucceeds then Some(d'.reading.settled) else w.flash, w.bootMs, w.writes + 1,
                w.asked + [d'.reading.settled])
        else World(Some(d'), w.flash, w.bootMs, w.writes, w.asked)
  }

  function RunOf(events: seq<Event>): World {
    if events == [] then World(None, None, 0, 0, []) else Step(RunOf(events[..|events| - 1]), events[|events| - 1])
  }

  predicate Plausible(mv: Option<nat>) {
    mv.Some? ==> mv.value <= EXTERNAL_POWER_MV_THRESHOLD
  }

  /** Trusted voltages are possible battery voltages; an untrusted one is only held on external power. */
  predicate Trustworthy(r: Reading) {
    && (r.confirmed ==> r.settled <= EXTERNAL_POWER_MV_THRESHOLD)
    && (!r.confirmed ==> r.charging)
    && (r.level == Charging <==> r.charging)
  }

  predicate Sound(w: World) {
    && Plausible(w.flash)
    && (forall i :: 0 <= i < |w.asked| ==> w.asked[i] <= EXTERNAL_POWER_MV_THRESHOLD)
    && (w.driver.Some? ==>
          && Trustworthy(w.driver.value.reading)
          && Plausible(w.driver.value.lastPersisted)
          && (w.writes > 0 ==> w.driver.value.lastPersisted.Some?)
          && w.driver.value.lastPersistMs >= w.bootMs + PERSIST_MIN_INTERVAL_MS * (w.writes - 1)
          && w.driver.value.lastPersistMs >= w.bootMs)
  }

  lemma StepKeepsSound(w: World, e: Event)
    requires Sound(w) && (e.EvPoll? ==> w.bootMs <= e.nowMs)
    ensures Sound(Step(w, e))
  {
  }

  /** The clock does not run back between a boot and the polls that follow it. */
  ghost predicate ClockRuns(events: seq<Event>) {
    forall i :: 0 <= i < |events| && events[i].EvPoll? ==> RunOf(events[..i]).bootMs <= events[i].nowMs
  }

  lemma {:induction false} RunSound(events: seq<Event>)
    requires ClockRuns(events)
    ensures Sound(RunOf(events))
  {
    if events != [] {
      var n := |events| - 1;
      assert forall i :: 0 <= i < n ==> events[..n][..i] == events[..i];
      RunSound(events[..n]);
      StepKeepsSound(RunOf(events[..n]), events[n]);
    }
  }

  /**
   * Across any boots, polls and failing writes: nothing above the external-power threshold is ever trusted or
   * written, a voltage that is not trusted is only held while charging, and `n` writes since a boot take at least
   * `n - 1` times five minutes.
   */
  lemma NothingContaminatedIsTrusted(events: seq<Event>)
    requires ClockRuns(events)
    ensures var w := RunOf(events);
            && Plausible(w.flash)
            && (forall i :: 0 <= i < |w.asked| ==> w.asked[i] <= EXTERNAL_POWER_MV_THRESHOLD)
            && (w.driver.Some? ==>
                  var r := w.driver.value.reading;
                  && (r.confirmed ==> r.settled <= EXTERNAL_POWER_MV_THRESHOLD)
                  && (!r.confirmed ==> r.charging && r.level == Charging)
                  && w.bootMs + PERSIST_MIN_INTERVAL_MS * (w.writes - 1) <= w.driver.value.lastPersistMs)
  {
    RunSound(events);
  }

  /** A write that succeeds puts the settled voltage into flash; any other poll, and any boot, leaves flash alone. */
  lemma PollWritesFlash(w: World, e: Event)
    ensures e.EvBoot? ==> Step(w, e).flash == w.flash && Step(w, e).asked == w.asked
    ensures e.EvPoll? && w.driver.None? ==> Step(w, e) == w
    ensures e.EvPoll? && w.driver.Some? ==>
              var d, w' := w.driver.value, Step(w, e);
              && w'.driver == Some(Polled(d, e.nowMs, e.mv))
              && w'.flash == (if Writes(d, e.nowMs, e.mv) && e.writeSucceeds then Some(w'.driver.value.reading.settled)
                              else w.flash)
              && w'.asked == w.asked + (if Writes(d, e.nowMs, e.mv) then [w'.driver.value.reading.settled] else [])
  {
  }

  /** As long as no write fails, the driver's idea of what is in flash is right, over any boots and polls. */
  lemma {:induction false} FlashIsAsBelieved(events: seq<Event>)
    requires forall i :: 0 <= i < |events| && events[i].EvPoll? ==> events[i].writeSucceeds
    ensures var w := RunOf(events);
            w.driver.Some? ==> w.flash == w.driver.value.lastPersisted
  {
    if events != [] {
      var n := |events| - 1;
      FlashIsAsBelieved(events[..n]);
      PollWritesFlash(RunOf(events[..n]), events[n]);
    }
  }

  /**
   * Exactly when a poll writes flash: it closes a window, the voltage is then confirmed, and either none was written
   * or restored in this boot, or it is 50 mV or more from the last one and 5 min have passed since.
   */
  lemma WritesIff(d: Driver, nowMs: nat, mv: nat)
    ensures var r := Sampled(d, nowMs, mv).reading;
            Writes(d, nowMs, mv) <==>
            && nowMs >= d.windowStartMs + 30_000 && r.confirmed
            && (d.lastPersisted.Some? ==>
                  && (r.settled >= d.lastPersisted.value + 50 || r.settled + 50 <= d.lastPersisted.value)
                  && nowMs >= d.lastPersistMs + 300_000)
    ensures Writes(d, nowMs, mv) ==>
              && Polled(d, nowMs, mv).lastPersisted == Some(Polled(d, nowMs, mv).reading.settled)
              && Polled(d, nowMs, mv).lastPersistMs == nowMs
    ensures !Writes(d, nowMs, mv) ==>
              && Polled(d, nowMs, mv).lastPersisted == d.lastPersisted
              && Polled(d, nowMs, mv).lastPersistMs == d.lastPersistMs
  {
  }

  datatype Sample = Sample(nowMs: nat, mv: nat)

  /** The polls of one boot, in order. */
  function PollAll(d: Driver, polls: seq<Sample>): Driver {
    if polls == [] then d
    else Polled(PollAll(d, polls[..|polls| - 1]), polls[|polls| - 1].nowMs, polls[|polls| - 1].mv)
  }

  predicate ClosesAt(d: Driver, polls: seq<Sample>, i: nat)
    requires i < |polls|
  {
    Closes(PollAll(d, polls[..i]), polls[i].nowMs)
  }

  /** Poll `i` closes a window whose peak is a battery voltage. */
  predicate ClosesOnBattery(d: Driver, polls: seq<Sample>, i: nat)
    requires i < |polls|
  {
    ClosesAt(d, polls, i) && Max(PollAll(d, polls[..i]).peakMv, polls[i].mv) <= EXTERNAL_POWER_MV_THRESHOLD
  }

  ghost predicate WindowClosed(d: Driver, polls: seq<Sample>) {
    exists i :: 0 <= i < |polls| && ClosesAt(d, polls, i)
  }

  ghost predicate WindowClosedOnBattery(d: Driver, polls: seq<Sample>) {
    exists i :: 0 <= i < |polls| && ClosesOnBattery(d, polls, i)
  }

  lemma LastPollCloses(d: Driver, polls: seq<Sample>, n: nat)
    requires |polls| == n + 1
    ensures WindowClosed(d, polls) <==> WindowClosed(d, polls[..n]) || ClosesAt(d, polls, n)
    ensures WindowClosedOnBattery(d, polls) <==> WindowClosedOnBattery(d, polls[..n]) || ClosesOnBattery(d, polls, n)
  {
    forall i | 0 <= i < n
      ensures ClosesAt(d, polls[..n], i) <==> ClosesAt(d, polls, i)
      ensures ClosesOnBattery(d, polls[..n], i) <==> ClosesOnBattery(d, polls, i)
    {
      assert polls[..n][..i] == polls[..i];
    }
  }

  /**
   * Over any polls of a boot, from any state of the driver: the voltage is confirmed exactly if it was, or if some
   * window has closed on a battery voltage since; the settled display is shown exactly if it was, or if some window
   * has closed since. Neither is ever lost.
   */
  lemma {:induction false} LatchesHold(d: Driver, polls: seq<Sample>)
    ensures var after := PollAll(d, polls);
            && (after.reading.confirmed <==> d.reading.confirmed || WindowClosedOnBattery(d, polls))
            && (after.windowSettled <==> d.windowSettled || WindowClosed(d, polls))
            && (d.reading.level != Unknown ==> (DisplayedLevel(after) == Unknown <==> !after.windowSettled))
  {
    if polls != [] {
      var n := |polls| - 1;
      LatchesHold(d, polls[..n]);
      LastPollCloses(d, polls, n);
      LastPollDecides(PollAll(d, polls[..n]), polls[n]);
    }
    if d.reading.level != Unknown {
      LevelStaysKnown(d, polls);
    }
  }

  /**
   * Over any polls of a boot: flash keeps up with every window that closes with the voltage confirmed, so that from
   * the first one on there is a voltage to restore.
   */
  lemma {:induction false} FlashKeepsUp(d: Driver, polls: seq<Sample>, i: nat)
    requires i < |polls| && ClosesAt(d, polls, i) && PollAll(d, polls[..i + 1]).reading.confirmed
    ensures var after := PollAll(d, polls[..i + 1]);
            && after.lastPersisted.Some?
            && (|| (after.reading.settled < after.lastPersisted.value + 50
                    && after.lastPersisted.value < after.reading.settled + 50)
                || polls[i].nowMs < after.lastPersistMs + 300_000)
    ensures PollAll(d, polls).lastPersisted.Some?
  {
    var upTo := polls[..i + 1];
    assert upTo[..i] == polls[..i];
    WritesIff(PollAll(d, polls[..i]), polls[i].nowMs, polls[i].mv);
    StaysPersisted(d, polls, i + 1);
  }

  lemma {:induction false} StaysPersisted(d: Driver, polls: seq<Sample>, i: nat)
    requires i <= |polls| && PollAll(d, polls[..i]).lastPersisted.Some?
    ensures PollAll(d, polls).lastPersisted.Some?
  {
    if i == |polls| {
      assert polls[..i] == polls;
    } else {
      var before := polls[..|polls| - 1];
      assert before[..i] == polls[..i];
      StaysPersisted(d, before, i);
    }
  }

  /** What a boot starts from: flash if it holds a voltage, and the first sample if that is a battery voltage. */
  lemma BootSeeds(flash: Option<nat>, initialMv: nat, nowMs: nat)
    ensures var d := Boot(flash, initialMv, nowMs);
            && (initialMv <= 4_300 ==>
                  d.reading.settled == initialMv && !d.reading.charging && d.reading.confirmed)
            && (initialMv > 4_300 && flash.Some? ==>
                  d.reading.settled == flash.value && d.reading.charging && d.reading.confirmed)
            && (initialMv > 4_300 && flash.None? ==>
                  d.reading.settled == initialMv && d.reading.charging && !d.reading.confirmed)
            && d.peakMv == initialMv && d.windowStartMs == nowMs && !d.windowSettled
            && d.lastPersisted == flash && d.lastPersistMs == nowMs
            && d.reading.level == BatteryLevelBucket(Unknown, d.reading.settled, d.reading.charging)
  {
  }

  /** What a closed window does: a peak that no battery has freezes the voltage, any other is the new one. */
  lemma WindowSettles(d: Driver, nowMs: nat, mv: nat)
    ensures var d', peak := Sampled(d, nowMs, mv), Max(d.peakMv, mv);
            && (nowMs < d.windowStartMs + 30_000 ==>
                  && d'.reading == d.reading && d'.peakMv == peak && d'.windowStartMs == d.windowStartMs
                  && d'.windowSettled == d.windowSettled)
            && (nowMs >= d.windowStartMs + 30_000 ==>
                  && d'.peakMv == mv && d'.windowStartMs == nowMs && d'.windowSettled
                  && d'.reading.charging == (peak > 4_300)
                  && d'.reading.settled == (if peak > 4_300 then d.reading.settled else peak)
                  && d'.reading.confirmed == (d.reading.confirmed || peak <= 4_300)
                  && d'.reading.level == BatteryLevelBucket(d.reading.level, d'.reading.settled, d'.reading.charging))
  {
  }

  lemma LastPollDecides(d: Driver, p: Sample)
    ensures var d' := Polled(d, p.nowMs, p.mv);
            && (d'.windowSettled <==> d.windowSettled || Closes(d, p.nowMs))
            && (d'.reading.confirmed <==>
                d.reading.confirmed || (Closes(d, p.nowMs) && Max(d.peakMv, p.mv) <= EXTERNAL_POWER_MV_THRESHOLD))
  {
  }

  lemma {:induction false} LevelStaysKnown(d: Driver, polls: seq<Sample>)
    requires d.reading.level != Unknown
    ensures PollAll(d, polls).reading.level != Unknown
  {
    if polls != [] {
      LevelStaysKnown(d, polls[..|polls| - 1]);
    }
  }

  /** From a boot on: nothing is displayed until a window closes, and flash or a battery reading confirms at once. */
  lemma LatchesSinceBoot(flash: Option<nat>, initialMv: nat, nowMs: nat, polls: seq<Sample>)
    ensures var d := Boot(flash, initialMv, nowMs);
            var after := PollAll(d, polls);
            && (DisplayedLevel(after) == Unknown <==> !WindowClosed(d, polls))
            && (after.reading.confirmed <==>
                flash.Some? || initialMv <= EXTERNAL_POWER_MV_THRESHOLD || WindowClosedOnBattery(d, polls))
  {
    LatchesHold(Boot(flash, initialMv, nowMs), polls);
  }

  // ── Recovery ───────────────────────────────────────────────────────────────

  /** Polls that all read `v`, at the given times. */
  function Steady(d: Driver, times: seq<nat>, v: nat): Driver {
    if times == [] then d else Polled(Steady(d, times[..|times| - 1], v), times[|times| - 1], v)
  }

  function Closings(d: Driver, times: seq<nat>, v: nat): nat {
    if times == [] then 0
    else
      var before := times[..|times| - 1];
      Closings(d, before, v) + if Closes(Steady(d, before, v), times[|times| - 1]) then 1 else 0
  }

  predicate Settled(r: Reading, v: nat) {
    r.settled == v && !r.charging && r.confirmed && BatteryLevelBucket(r.level, v, false) == r.level
  }

  lemma {:induction false} SteadyRun(d: Driver, times: seq<nat>, v: nat)
    requires v <= EXTERNAL_POWER_MV_THRESHOLD
    ensures var after := Steady(d, times, v);
            && (Closings(d, times, v) == 0 ==> after.reading == d.reading && after.peakMv <= Max(d.peakMv, v))
            && (Closings(d, times, v) >= 1 ==> after.peakMv == v)
            && (Closings(d, times, v) == 1 ==> after.reading == WindowCloseStep(d.reading, Max(d.peakMv, v)))
            && (Closings(d, times, v) >= 2 ==> Settled(after.reading, v))
  {
    if times == [] {
    } else {
      var n := |times| - 1;
      var before := Steady(d, times[..n], v);
      SteadyRun(d, times[..n], v);
      SteadyPeak(d, times[..n], v);
      ClosingOnSteady(before.reading, v);
    }
  }

  lemma {:induction false} SteadyPeak(d: Driver, times: seq<nat>, v: nat)
    ensures Closings(d, times, v) == 0 ==> Max(Steady(d, times, v).peakMv, v) == Max(d.peakMv, v)
  {
    if times != [] {
      SteadyPeak(d, times[..|times| - 1], v);
    }
  }

  /** A window whose peak is `v` settles on `v`, and does so once and for all. */
  lemma ClosingOnSteady(r: Reading, v: nat)
    requires v <= EXTERNAL_POWER_MV_THRESHOLD
    ensures Settled(WindowCloseStep(r, v), v)
  {
    match IndexOf(r.level)
    case Some(i) => OneStep(i, v);
    case None => PlainIsFixpoint(v);
  }

  lemma PlainIsFixpoint(v: nat)
    ensures HysteresisIndex(PlainIndex(v), v) == PlainIndex(v)
  {
  }

  /**
   * From any state of the pipeline, contaminated, unconfirmed or stale: once the samples stay at a battery
   * voltage `v`, the second window to close settles on `v`, and the first one does exactly when the peak left
   * over from before is no higher than `v`, or is a charge-rail reading and `v` was already settled.
   */
  lemma RecoversAfterTwoWindows(d: Driver, times: seq<nat>, v: nat)
    requires v <= EXTERNAL_POWER_MV_THRESHOLD
    ensures Closings(d, times, v) >= 2 ==> Settled(Steady(d, times, v).reading, v)
    ensures Closings(d, times, v) == 1 ==>
              (Steady(d, times, v).reading.settled == v <==>
               d.peakMv <= v || (d.peakMv > EXTERNAL_POWER_MV_THRESHOLD && d.reading.settled == v))
  {
    SteadyRun(d, times, v);
  }
}
