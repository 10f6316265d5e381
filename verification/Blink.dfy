/** The keyboard-backlight blink loop: lazily rolled forward, yet the same as a clock that is never touched. */
module Blink {
  import opened Words
  import opened Arith

  const BLINK_COUNT := 3
  const BLINK_PHASE_MS := 150
  const BURST_INTERVAL_MS := 5_000

  /** Bursts of three blinks, 150 ms on and 150 ms off, begin every 5 s after activation. */
  predicate ClockOn(sinceActivation: nat) {
    var e := sinceActivation % BURST_INTERVAL_MS;
    e < 900 && e / BLINK_PHASE_MS % 2 == 0
  }

  /** The light is on in burst `k` and blink `j` of it, and at no other time. */
  lemma ClockOnIff(t: nat)
    ensures ClockOn(t) <==> exists k: nat, j: nat :: LitIn(t, k, j)
  {
    if ClockOn(t) {
      assert LitIn(t, t / 5_000, t % 5_000 / 300);
    }
    forall k: nat, j: nat | LitIn(t, k, j)
      ensures ClockOn(t)
    {
      DivModUnique(t, 5_000, k, t - 5_000 * k);
      DivModUnique(t - 5_000 * k, 150, 2 * j, t - 5_000 * k - 300 * j);
    }
  }

  predicate LitIn(t: nat, k: nat, j: nat) {
    j < 3 && 5_000 * k + 300 * j <= t < 5_000 * k + 300 * j + 150
  }

  class BlinkLoop {
    var active: bool
    var burstStartMs: nat
    /** When the loop was last activated. */
    ghost var activatedMs: nat

    ghost predicate Valid()
      reads this
    {
      active ==> activatedMs <= burstStartMs && (burstStartMs - activatedMs) % BURST_INTERVAL_MS == 0
    }

    ghost function View(): State
      reads this
    {
      State(active, burstStartMs)
    }

    constructor ()
      ensures Valid() && View() == RunOf([])
    {
      active, burstStartMs, activatedMs := false, 0, 0;
    }

    /** Idempotent: a message that arrives while the loop runs does not restart it. */
    method Notify(nowMs: u64)
      requires Valid()
      modifies this
      ensures Valid() && View() == Step(old(View()), Fire(nowMs, true, true, true))
      ensures activatedMs == if old(active) then old(activatedMs) else nowMs
    {
      if !active {
        active := true;
        burstStartMs := nowMs;
        activatedMs := nowMs;
      }
    }

    method Stop()
      modifies this
      ensures Valid() && forall now :: View() == Step(old(View()), Wake(now))
    {
      active := false;
    }

    /** However long ago the last poll was, the answer is the clock's; a clock that ran back reads as a burst's start. */
    method Poll(nowMs: u64) returns (on: bool)
      requires Valid()
      modifies this
      ensures Valid() && activatedMs == old(activatedMs)
      ensures View() == Step(old(View()), PollAt(nowMs)) && on == Shown(old(View()), nowMs)
      ensures active && nowMs >= old(burstStartMs) ==>
                && on == ClockOn(nowMs - activatedMs)
                && burstStartMs <= nowMs < burstStartMs + BURST_INTERVAL_MS
    {
      if !active {
        return false;
      }
      var elapsed := SatSub(nowMs, burstStartMs);
      if nowMs >= burstStartMs {
        RollForward(activatedMs, burstStartMs, nowMs);
      }
      if elapsed >= BURST_INTERVAL_MS {
        var periods := elapsed / BURST_INTERVAL_MS;
        burstStartMs := burstStartMs + periods * BURST_INTERVAL_MS;
        elapsed := SatSub(nowMs, burstStartMs);
      }
      var blinkWindowMs := BLINK_COUNT * 2 * BLINK_PHASE_MS;
      if elapsed >= blinkWindowMs {
        return false;
      }
      var phase := elapsed / BLINK_PHASE_MS;
      on := phase % 2 == 0;
    }
  }

  /** Whole periods skipped or not, the phase since activation is the phase since the burst's start. */
  lemma RollForward(activated: nat, start: nat, now: nat)
    requires activated <= start <= now && (start - activated) % BURST_INTERVAL_MS == 0
    ensures var start' := start + (now - start) / BURST_INTERVAL_MS * BURST_INTERVAL_MS;
            && start' <= now < start' + BURST_INTERVAL_MS
            && (start' - activated) % BURST_INTERVAL_MS == 0
            && (now - activated) % BURST_INTERVAL_MS == now - start'
  {
    var p, k := (now - start) / BURST_INTERVAL_MS, (start - activated) / BURST_INTERVAL_MS;
    var start' := start + p * BURST_INTERVAL_MS;
    DivModUnique(start' - activated, BURST_INTERVAL_MS, k + p, 0);
    DivModUnique(now - activated, BURST_INTERVAL_MS, k + p, now - start');
  }

  // ── Whole runs ─────────────────────────────────────────────────────────────

  /** `Fire` is a notification event: only an incoming message, shown visually on a sleeping screen, starts the loop. */
  datatype Event = Fire(now: nat, incoming: bool, visual: bool, asleep: bool) | Wake(now: nat) | PollAt(now: nat)

  datatype State = State(active: bool, burstStart: nat)

  /** One call, as the contracts of `BlinkLoop` state it. */
  function Step(s: State, e: Event): State {
    match e
    case Fire(now, incoming, visual, asleep) =>
      if incoming && visual && asleep && !s.active then State(true, now) else s
    case Wake(_) => State(false, s.burstStart)
    case PollAt(now) =>
      if s.active && now >= s.burstStart then
        State(true, s.burstStart + (now - s.burstStart) / BURST_INTERVAL_MS * BURST_INTERVAL_MS)
      else s
  }

  function Shown(s: State, now: nat): bool {
    var elapsed := SatSub(now, Step(s, PollAt(now)).burstStart);
    s.active && elapsed < 900 && elapsed / BLINK_PHASE_MS % 2 == 0
  }

  function RunOf(events: seq<Event>): State {
    if events == [] then State(false, 0) else Step(RunOf(events[..|events| - 1]), events[|events| - 1])
  }

  /** When the loop that is running now was activated, read off the events alone. */
  function Activation(events: seq<Event>): Option<nat> {
    if events == [] then None
    else
      var before := Activation(events[..|events| - 1]);
      match events[|events| - 1]
      case Fire(now, incoming, visual, asleep) =>
        if incoming && visual && asleep && before.None? then Some(now) else before
      case Wake(_) => None
      case PollAt(_) => before
  }

  predicate ClockRuns(events: seq<Event>) {
    forall i, j :: 0 <= i <= j < |events| ==> events[i].now <= events[j].now
  }

  lemma {:induction false} RunFollowsActivation(events: seq<Event>)
    requires ClockRuns(events)
    ensures var s, t := RunOf(events), Activation(events);
            && (s.active <==> t.Some?)
            && (t.Some? ==>
                  && t.value <= s.burstStart <= events[|events| - 1].now
                  && (s.burstStart - t.value) % BURST_INTERVAL_MS == 0)
  {
    if events != [] {
      var n := |events| - 1;
      RunFollowsActivation(events[..n]);
      var s, t := RunOf(events[..n]), Activation(events[..n]);
      if t.Some? && events[n].PollAt? {
        RollForward(t.value, s.burstStart, events[n].now);
      }
    }
  }

  /** The events that can start the loop. */
  predicate Starts(e: Event) {
    e.Fire? && e.incoming && e.visual && e.asleep
  }

  ghost predicate WokenBetween(events: seq<Event>, i: int, j: int)
    requires j <= |events|
  {
    exists w :: i < w < j && 0 <= w && events[w].Wake?
  }

  /** The loop that still runs was started by event `i`: no wake since, and one since every earlier start. */
  ghost predicate StartedAt(events: seq<Event>, i: nat) {
    && i < |events| && Starts(events[i]) && !WokenBetween(events, i, |events|)
    && forall j :: 0 <= j < i && Starts(events[j]) ==> WokenBetween(events, j, i)
  }

  /** The loop is idle exactly when every start has been followed by a wake. */
  lemma {:induction false} IdleIff(events: seq<Event>)
    ensures Activation(events).None? <==>
            forall j :: 0 <= j < |events| && Starts(events[j]) ==> WokenBetween(events, j, |events|)
  {
    if events != [] {
      var n := |events| - 1;
      IdleIff(events[..n]);
      forall j | 0 <= j < n
        ensures WokenBetween(events, j, n + 1) <==> WokenBetween(events[..n], j, n) || events[n].Wake?
      {
        WokenOneMore(events, j);
      }
    }
  }

  lemma WokenOneMore(events: seq<Event>, j: nat)
    requires j < |events| - 1
    ensures var n := |events| - 1;
            WokenBetween(events, j, n + 1) <==> WokenBetween(events[..n], j, n) || events[n].Wake?
  {
    var n := |events| - 1;
    if w :| j < w < n + 1 && events[w].Wake? {
      assert w < n ==> events[..n][w].Wake?;
    }
  }

  lemma StartedBefore(events: seq<Event>, i: nat)
    requires i < |events| - 1
    ensures StartedAt(events, i) <==> StartedAt(events[..|events| - 1], i) && !events[|events| - 1].Wake?
  {
    var before := events[..|events| - 1];
    WokenOneMore(events, i);
    forall j | 0 <= j < i
      ensures WokenBetween(before, j, i) <==> WokenBetween(events, j, i)
    {
      if w :| j < w < i && events[w].Wake? {
        assert before[w].Wake?;
      }
    }
  }

  /** The activation time is that of the event that started the loop which still runs. */
  lemma {:induction false} ActivationIff(events: seq<Event>, t: nat)
    ensures Activation(events) == Some(t) <==> exists i: nat :: StartedAt(events, i) && events[i].now == t
  {
    if events != [] {
      var n := |events| - 1;
      ActivationIff(events[..n], t);
      IdleIff(events[..n]);
      StartedLast(events);
      if i: nat :| StartedAt(events[..n], i) && events[..n][i].now == t {
        StartedBefore(events, i);
        assert StartedAt(events, i) || events[n].Wake?;
      }
      if i: nat :| StartedAt(events, i) && events[i].now == t {
        if i < n {
          StartedBefore(events, i);
          assert events[..n][i] == events[i];
        }
      }
      StartBarsIdle(events[..n]);
    }
  }

  lemma StartBarsIdle(events: seq<Event>)
    ensures Activation(events).None? ==> forall i: nat :: !StartedAt(events, i)
  {
    IdleIff(events);
  }

  lemma StartedLast(events: seq<Event>)
    requires events != []
    ensures var n := |events| - 1;
            StartedAt(events, n) <==> Starts(events[n]) && Activation(events[..n]).None?
  {
    var n := |events| - 1;
    IdleIff(events[..n]);
    forall j | 0 <= j < n
      ensures WokenBetween(events[..n], j, n) <==> WokenBetween(events, j, n)
    {
      if w :| j < w < n && events[w].Wake? {
        assert events[..n][w].Wake?;
      }
    }
  }

  /**
   * After any events in time order, however many polls were skipped among them, a poll shows exactly what a clock
   * started at the activation would show.
   */
  lemma PollIsClock(events: seq<Event>, now: nat)
    requires ClockRuns(events) && forall i :: 0 <= i < |events| ==> events[i].now <= now
    ensures Shown(RunOf(events), now) <==>
            Activation(events).Some? && Activation(events).value <= now
            && ClockOn(now - Activation(events).value)
  {
    RunFollowsActivation(events);
    var s, t := RunOf(events), Activation(events);
    if t.Some? {
      RollForward(t.value, s.burstStart, now);
    }
  }
}
