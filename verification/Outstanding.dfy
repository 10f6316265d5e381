/**
 * The table of sends that wait for a wire ACK. Beside the table itself: what becomes of every send over a whole
 * run, how often it is transmitted, and how long it can wait.
 */
module Outstanding {
  import opened Words
  import opened Occurrences

  const MAX_OUTSTANDING_SENDS := 8
  const DELIVERY_ACK_DEADLINE_MS := 30_000
  const MAX_SEND_RETRIES := 2
  const RETRY_BACKOFF_STEP_MS := 20_000
  const RETRY_JITTER_MAX_MS := 5_000

  datatype Kind = Dm(toHash: u8) | RoomPost(roomHash: u8)

  /** `frame` is the meaningful prefix of the cached 255-byte buffer. */
  datatype Send = Send(ackHash: Hash4, kind: Kind, sentAt: u64, deadline: nat, attempts: nat, frame: seq<u8>)

  /** What must never change about a send while it is tracked. */
  datatype Core = Core(ackHash: Hash4, kind: Kind, sentAt: u64, frame: seq<u8>)

  function CoreOf(s: Send): Core {
    Core(s.ackHash, s.kind, s.sentAt, s.frame)
  }

  function NewSend(ackHash: Hash4, kind: Kind, sentAt: u64, frame: seq<u8>): Send {
    Send(ackHash, kind, sentAt, sentAt + DELIVERY_ACK_DEADLINE_MS, 0, frame[..Min(|frame|, FRAME_BUF)])
  }

  function RetryBackoff(attempt: nat, h: Hash4): (ms: nat)
    ensures DELIVERY_ACK_DEADLINE_MS + RETRY_BACKOFF_STEP_MS * attempt <= ms
    ensures ms < DELIVERY_ACK_DEADLINE_MS + RETRY_BACKOFF_STEP_MS * attempt + RETRY_JITTER_MAX_MS
  {
    var jitter := (h.b0 * 1103 + h.b1 * 71 + h.b2) % RETRY_JITTER_MAX_MS;
    DELIVERY_ACK_DEADLINE_MS + RETRY_BACKOFF_STEP_MS * attempt + jitter
  }

  /** A fresh send is due 30 s after it was sent, unretried, with the bytes it was given: all of them up to 255. */
  lemma FreshSend(ackHash: Hash4, kind: Kind, sentAt: u64, frame: seq<u8>)
    ensures var s := NewSend(ackHash, kind, sentAt, frame);
            && s.ackHash == ackHash && s.kind == kind && s.sentAt == sentAt
            && s.deadline == sentAt + 30_000 && s.attempts == 0
            && s.frame <= frame && (|frame| <= 255 ==> s.frame == frame) && (|frame| > 255 ==> |s.frame| == 255)
  {
  }

  /** Of the multiples of 1103 and of 71 within a byte's range only 0 is a multiple of 5000. */
  lemma OnlyCommonMultiple(d: int, q: int)
    requires -256 < d < 256
    ensures 1_103 * d == 5_000 * q || 71 * d == 5_000 * q ==> d == 0
  {
    // 1103 * 3767 and 71 * 1831 are one more than a multiple of 5000.
    if 1_103 * d == 5_000 * q {
      assert d == 5_000 * (3_767 * q - 831 * d);
    }
    if 71 * d == 5_000 * q {
      assert d == 5_000 * (1_831 * q - 26 * d);
    }
  }

  /** The jitter is what the hash's first three bytes, weighted, leave over after whole steps of 5 s. */
  lemma JitterOfHash(attempt: nat, h: Hash4)
    ensures var jitter := RetryBackoff(attempt, h) - 30_000 - 20_000 * attempt;
            && 0 <= jitter < 5_000
            && exists k: nat :: WeightedSum(h) == 5_000 * k + jitter
  {
    var k: nat := WeightedSum(h) / 5_000;
    assert WeightedSum(h) == 5_000 * k + (RetryBackoff(attempt, h) - 30_000 - 20_000 * attempt);
  }

  function WeightedSum(h: Hash4): nat {
    1_103 * h.b0 + 71 * h.b1 + h.b2
  }

  /** Sends whose hashes differ in just one of the first three bytes are never due for a retry at the same time. */
  lemma BackoffsDiffer(attempt: nat, g: Hash4, h: Hash4)
    requires || (g.b0 != h.b0 && g.b1 == h.b1 && g.b2 == h.b2)
             || (g.b0 == h.b0 && g.b1 != h.b1 && g.b2 == h.b2)
             || (g.b0 == h.b0 && g.b1 == h.b1 && g.b2 != h.b2)
    ensures RetryBackoff(attempt, g) != RetryBackoff(attempt, h)
  {
    var x, y := g.b0 * 1103 + g.b1 * 71 + g.b2, h.b0 * 1103 + h.b1 * 71 + h.b2;
    var q := x / 5_000 - y / 5_000;
    if g.b0 != h.b0 {
      OnlyCommonMultiple(g.b0 - h.b0, q);
    } else if g.b1 != h.b1 {
      OnlyCommonMultiple(g.b1 - h.b1, q);
    }
  }

  // ── The table as a value ───────────────────────────────────────────────────

  type Slot = Option<Send>

  ghost predicate IsFirstFree(table: seq<Slot>, i: nat) {
    i < |table| && table[i].None? && forall j :: 0 <= j < i ==> table[j].Some?
  }

  ghost predicate IsFirstMatch(table: seq<Slot>, i: nat, ackHash: Hash4) {
    i < |table| && Matches(table[i], ackHash) && forall j :: 0 <= j < i ==> !Matches(table[j], ackHash)
  }

  ghost predicate IsOldest(table: seq<Slot>, i: nat) {
    && i < |table| && table[i].Some?
    && (forall j :: 0 <= j < |table| && table[j].Some? ==> table[i].value.sentAt <= table[j].value.sentAt)
    && forall j :: 0 <= j < i && table[j].Some? ==> table[i].value.sentAt < table[j].value.sentAt
  }

  predicate Full(table: seq<Slot>) {
    forall i :: 0 <= i < |table| ==> table[i].Some?
  }

  /** `after` and `evicted` are what inserting `send` may leave and return. */
  ghost predicate Inserts(table: seq<Slot>, send: Send, after: seq<Slot>, evicted: Slot) {
    if Full(table) then
      exists i: nat :: IsOldest(table, i) && after == table[i := Some(send)] && evicted == table[i]
    else
      exists i: nat :: IsFirstFree(table, i) && after == table[i := Some(send)] && evicted == None
  }

  predicate Matches(s: Slot, ackHash: Hash4) {
    s.Some? && s.value.ackHash == ackHash
  }

  ghost predicate Resolves(table: seq<Slot>, ackHash: Hash4, after: seq<Slot>, resolved: Slot) {
    if forall i :: 0 <= i < |table| ==> !Matches(table[i], ackHash) then after == table && resolved == None
    else
      exists i: nat :: && IsFirstMatch(table, i, ackHash)
                       && after == table[i := None] && resolved == table[i]
  }

  predicate Matured(s: Slot, now: nat) {
    s.Some? && now >= s.value.deadline
  }

  /** `answer` is what the caller's `retry_if` says, should it be asked about this slot. */
  predicate Retries(s: Slot, now: nat, answer: bool) {
    Matured(s, now) && s.value.attempts < MAX_SEND_RETRIES && answer
  }

  predicate GivesUp(s: Slot, now: nat, answer: bool) {
    Matured(s, now) && !Retries(s, now, answer)
  }

  function SweptSlot(s: Slot, now: nat, answer: bool): Slot {
    if Retries(s, now, answer) then
      var n := s.value.attempts + 1;
      Some(s.value.(attempts := n, deadline := now + RetryBackoff(n, s.value.ackHash)))
    else if Matured(s, now) then None
    else s
  }

  function Swept(table: seq<Slot>, now: nat, answers: seq<bool>): (after: seq<Slot>)
    requires |answers| == |table|
    ensures |after| == |table|
    ensures forall i :: 0 <= i < |table| ==> after[i] == SweptSlot(table[i], now, answers[i])
  {
    if table == [] then []
    else
      var n := |table| - 1;
      Swept(table[..n], now, answers[..n]) + [SweptSlot(table[n], now, answers[n])]
  }

  /** The sends re-enqueued by a sweep, in slot order. */
  function Retried(table: seq<Slot>, now: nat, answers: seq<bool>): seq<Send>
    requires |answers| == |table|
  {
    if table == [] then []
    else
      var n := |table| - 1;
      Retried(table[..n], now, answers[..n]) + if Retries(table[n], now, answers[n]) then [table[n].value] else []
  }

  /** The sends a sweep hands to `on_undelivered`, in slot order. */
  function Undelivered(table: seq<Slot>, now: nat, answers: seq<bool>): seq<Send>
    requires |answers| == |table|
  {
    if table == [] then []
    else
      var n := |table| - 1;
      Undelivered(table[..n], now, answers[..n]) + if GivesUp(table[n], now, answers[n]) then [table[n].value] else []
  }

  lemma OneMoreSlot(table: seq<Slot>, now: nat, answers: seq<bool>, i: nat)
    requires |answers| == |table| && i < |table|
    ensures Retried(table[..i + 1], now, answers[..i + 1]) ==
            Retried(table[..i], now, answers[..i])
            + if Retries(table[i], now, answers[i]) then [table[i].value] else []
    ensures Undelivered(table[..i + 1], now, answers[..i + 1]) ==
            Undelivered(table[..i], now, answers[..i])
            + if GivesUp(table[i], now, answers[i]) then [table[i].value] else []
  {
    assert table[..i + 1][..i] == table[..i] && answers[..i + 1][..i] == answers[..i];
  }

  lemma AllSlotsSwept(table: seq<Slot>, now: nat, answers: seq<bool>, after: seq<Slot>)
    requires |answers| == |table| == |after|
    requires forall i :: 0 <= i < |after| ==> after[i] == SweptSlot(table[i], now, answers[i])
    ensures after == Swept(table, now, answers)
    ensures table[..|table|] == table && answers[..|table|] == answers
  {
  }

  class OutstandingSends {
    const slots: array<Slot>

    ghost predicate Valid() {
      slots.Length == MAX_OUTSTANDING_SENDS
    }

    constructor ()
      ensures Valid() && fresh(slots)
      ensures slots[..] == seq(8, _ => None)
    {
      slots := new Slot[MAX_OUTSTANDING_SENDS](_ => None);
    }

    method Insert(send: Send) returns (evicted: Slot)
      requires Valid()
      modifies slots
      ensures Inserts(old(slots[..]), send, slots[..], evicted)
    {
      ghost var table := slots[..];
      for i := 0 to slots.Length
        invariant slots[..] == table
        invariant forall j :: 0 <= j < i ==> table[j].Some?
      {
        if slots[i].None? {
          assert IsFirstFree(table, i);
          slots[i] := Some(send);
          assert slots[..] == table[i := Some(send)];
          return None;
        }
      }
      var oldestIdx := 0;
      var oldestSentAt: u64 := U64_MAX;
      for i := 0 to slots.Length
        invariant slots[..] == table
        invariant 0 <= oldestIdx < slots.Length
        invariant oldestSentAt == U64_MAX ==> oldestIdx == 0
        invariant oldestSentAt != U64_MAX ==> oldestIdx < i && table[oldestIdx].value.sentAt == oldestSentAt
        invariant forall j :: 0 <= j < i ==> oldestSentAt <= table[j].value.sentAt
        invariant forall j :: 0 <= j < oldestIdx ==> oldestSentAt < table[j].value.sentAt
      {
        match slots[i]
        case Some(s) =>
          if s.sentAt < oldestSentAt {
            oldestSentAt := s.sentAt;
            oldestIdx := i;
          }
        case None =>
      }
      assert IsOldest(table, oldestIdx);
      evicted := slots[oldestIdx];
      slots[oldestIdx] := Some(send);
      assert slots[..] == table[oldestIdx := Some(send)];
    }

    method Resolve(ackHash: Hash4) returns (resolved: Slot)
      requires Valid()
      modifies slots
      ensures Resolves(old(slots[..]), ackHash, slots[..], resolved)
    {
      ghost var table := slots[..];
      for i := 0 to slots.Length
        invariant slots[..] == table
        invariant forall j :: 0 <= j < i ==> !Matches(table[j], ackHash)
      {
        if Matches(slots[i], ackHash) {
          assert IsFirstMatch(table, i, ackHash);
          resolved := slots[i];
          slots[i] := None;
          assert slots[..] == table[i := None];
          return;
        }
      }
      return None;
    }

    method ResolveEvicted(tag: Option<Hash4>) returns (resolved: Slot)
      requires Valid()
      modifies slots
      ensures tag.None? ==> resolved == None && slots[..] == old(slots[..])
      ensures tag.Some? ==> Resolves(old(slots[..]), tag.value, slots[..], resolved)
    {
      match tag
      case None => resolved := None;
      case Some(hash) => resolved := Resolve(hash);
    }

    /** `answers[i]` is the caller's verdict on slot `i`, so the callback may answer differently at every call. */
    method SweepExpired(now: u64, answers: seq<bool>) returns (retried: seq<Send>, undelivered: seq<Send>)
      requires Valid() && |answers| == slots.Length
      modifies slots
      ensures slots[..] == Swept(old(slots[..]), now, answers)
      ensures retried == Retried(old(slots[..]), now, answers)
      ensures undelivered == Undelivered(old(slots[..]), now, answers)
    {
      ghost var table := slots[..];
      retried, undelivered := [], [];
      for i := 0 to slots.Length
        invariant forall j :: 0 <= j < i ==> slots[j] == SweptSlot(table[j], now, answers[j])
        invariant forall j :: i <= j < slots.Length ==> slots[j] == table[j]
        invariant retried == Retried(table[..i], now, answers[..i])
        invariant undelivered == Undelivered(table[..i], now, answers[..i])
      {
        OneMoreSlot(table, now, answers, i);
        if Matured(slots[i], now) {
          var send := slots[i].value;
          var hasAttemptsLeft := send.attempts < MAX_SEND_RETRIES;
          if hasAttemptsLeft && answers[i] {
            retried := retried + [send];
            var n := send.attempts + 1;
            slots[i] := Some(send.(attempts := n, deadline := now + RetryBackoff(n, send.ackHash)));
          } else {
            slots[i] := None;
            undelivered := undelivered + [send];
          }
        }
      }
      AllSlotsSwept(table, now, answers, slots[..]);
    }
  }

  // ── One insertion, one acknowledgement ─────────────────────────────────────

  /** A free slot takes the send, the first one; with none free, the first of the oldest sends makes room for it. */
  lemma InsertedWhere(table: seq<Slot>, send: Send, after: seq<Slot>, evicted: Slot)
    requires Inserts(table, send, after, evicted)
    ensures exists i :: 0 <= i < |table| && TakesSlot(table, send, after, evicted, i)
    ensures evicted.None? <==> exists j :: 0 <= j < |table| && table[j].None?
    ensures evicted.Some? ==> forall j :: 0 <= j < |table| ==> evicted.value.sentAt <= table[j].value.sentAt
  {
    var i: nat :| i < |table| && after == table[i := Some(send)]
                  && if Full(table) then IsOldest(table, i) && evicted == table[i]
                     else IsFirstFree(table, i) && evicted == None;
    assert TakesSlot(table, send, after, evicted, i);
  }

  ghost predicate TakesSlot(table: seq<Slot>, send: Send, after: seq<Slot>, evicted: Slot, i: nat)
    requires i < |table|
  {
    && after == table[i := Some(send)] && evicted == table[i]
    && (forall j :: 0 <= j < i ==> table[j].Some?)
    && (evicted.Some? ==> forall j :: 0 <= j < i ==> evicted.value.sentAt < table[j].value.sentAt)
  }

  /** The first slot with the hash, all four bytes of it, is emptied and returned; without one nothing happens. */
  lemma ResolvedWhich(table: seq<Slot>, h: Hash4, after: seq<Slot>, resolved: Slot)
    requires Resolves(table, h, after, resolved)
    ensures resolved.Some? <==> exists i :: 0 <= i < |table| && table[i].Some? && table[i].value.ackHash == h
    ensures resolved.None? ==> after == table
    ensures resolved.Some? ==>
              && resolved.value.ackHash == h
              && exists i :: 0 <= i < |table| && EmptiesSlot(table, h, after, resolved, i)
  {
    if resolved.Some? {
      var i: nat :| IsFirstMatch(table, i, h) && after == table[i := None] && resolved == table[i];
      assert EmptiesSlot(table, h, after, resolved, i);
    } else {
      assert forall i :: 0 <= i < |table| ==> !Matches(table[i], h);
    }
  }

  ghost predicate EmptiesSlot(table: seq<Slot>, h: Hash4, after: seq<Slot>, resolved: Slot, i: nat)
    requires i < |table|
  {
    && after == table[i := None] && resolved == table[i]
    && forall j :: 0 <= j < i ==> table[j].None? || table[j].value.ackHash != h
  }

  // ── One sweep ──────────────────────────────────────────────────────────────

  /** Nobody that a sweep leaves in the table is due, so a second sweep at the same time does nothing. */
  lemma SweepLeavesNoneDue(table: seq<Slot>, now: nat, answers: seq<bool>, again: seq<bool>)
    requires |answers| == |table| == |again|
    ensures var after := Swept(table, now, answers);
            && (forall i :: 0 <= i < |after| ==> !Matured(after[i], now))
            && Swept(after, now, again) == after
            && Retried(after, now, again) == [] && Undelivered(after, now, again) == []
  {
    var after := Swept(table, now, answers);
    NothingDue(after, now, again);
  }

  lemma {:induction false} NothingDue(table: seq<Slot>, now: nat, answers: seq<bool>)
    requires |answers| == |table|
    requires forall i :: 0 <= i < |table| ==> !Matured(table[i], now)
    ensures Swept(table, now, answers) == table
    ensures Retried(table, now, answers) == [] && Undelivered(table, now, answers) == []
  {
    if table != [] {
      NothingDue(table[..|table| - 1], now, answers[..|table| - 1]);
    }
  }

  /**
   * What a sweep at `now` does to a slot: a send that is not due is left alone; one that is, has been retried less
   * than twice and may be, waits for another 30 s plus 20 s for each retry plus less than 5 s; any other is gone.
   */
  lemma SweptSlotWaits(table: seq<Slot>, now: nat, answers: seq<bool>, i: nat)
    requires |answers| == |table| && i < |table| && table[i].Some?
    ensures var s, after := table[i].value, Swept(table, now, answers)[i];
            && (now < s.deadline ==> after == Some(s))
            && (now >= s.deadline && s.attempts < 2 && answers[i] ==>
                  && after.Some? && CoreOf(after.value) == CoreOf(s) && after.value.attempts == s.attempts + 1
                  && now + 30_000 + 20_000 * (s.attempts + 1) <= after.value.deadline
                  && after.value.deadline < now + 35_000 + 20_000 * (s.attempts + 1))
            && (now >= s.deadline && (s.attempts >= 2 || !answers[i]) ==> after == None)
  {
  }

  // ── Whole runs ─────────────────────────────────────────────────────────────

  datatype Event =
    | Sent(now: u64, ackHash: Hash4, kind: Kind, frame: seq<u8>)
    | Acked(now: u64, ackHash: Hash4)
    | TxEvicted(now: u64, tag: Option<Hash4>)
    | Sweep(now: u64, answers: seq<bool>)

  /** The table, the clock, and every send that ever went in or out of it. */
  datatype State = State(table: seq<Slot>, clock: nat, lastSweep: nat, inserted: seq<Send>, resolved: seq<Send>,
                         undelivered: seq<Send>, evicted: seq<Send>, retried: seq<Send>)

  function Boot(): State {
    State(seq(MAX_OUTSTANDING_SENDS, _ => None), 0, 0, [], [], [], [], [])
  }

  function AsSeq(s: Slot): seq<Send> {
    if s.None? then [] else [s.value]
  }

  /** One call, as the contracts of `OutstandingSends` state it; the clock never runs back. */
  ghost predicate Step(st: State, e: Event, st': State) {
    && st.clock <= e.now
    && match e
       case Sent(now, ackHash, kind, frame) =>
         var send := NewSend(ackHash, kind, now, frame);
         exists evicted :: && Inserts(st.table, send, st'.table, evicted)
                           && st' == st.(table := st'.table, clock := now, inserted := st.inserted + [send],
                                         evicted := st.evicted + AsSeq(evicted))
       case Acked(now, ackHash) => StepResolve(st, now, ackHash, st')
       case TxEvicted(now, tag) =>
         if tag.None? then st' == st.(clock := now) else StepResolve(st, now, tag.value, st')
       case Sweep(now, answers) =>
         && |answers| == |st.table|
         && st' == st.(table := Swept(st.table, now, answers), clock := now, lastSweep := now,
                       undelivered := st.undelivered + Undelivered(st.table, now, answers),
                       retried := st.retried + Retried(st.table, now, answers))
  }

  ghost predicate StepResolve(st: State, now: nat, ackHash: Hash4, st': State) {
    exists resolved :: && Resolves(st.table, ackHash, st'.table, resolved)
                       && st' == st.(table := st'.table, clock := now, resolved := st.resolved + AsSeq(resolved))
  }

  ghost predicate IsRun(events: seq<Event>, states: seq<State>) {
    && |states| == |events| + 1
    && states[0] == Boot()
    && forall i :: 0 <= i < |events| ==> Step(states[i], events[i], states[i + 1])
  }

  // ── Every send leaves exactly once, and is transmitted at most three times ──

  /**
   * Which of the inserted sends, numbered from 0 in the order of insertion, each slot and each log entry is. The
   * numbers are what a reader of the run would write beside it; the firmware keeps none.
   */
  datatype Ids = Ids(owner: seq<Option<nat>>, resolved: seq<nat>, undelivered: seq<nat>, evicted: seq<nat>,
                     retried: seq<nat>)

  /** In how many places send number `id` is. */
  function Places(ids: Ids, id: nat): nat {
    Occurs(ids.owner, Some(id)) + Occurs(ids.resolved, id) + Occurs(ids.undelivered, id) + Occurs(ids.evicted, id)
  }

  /** Entry by entry, `sends` are the inserted sends with these numbers, with hash, kind, time and bytes unchanged. */
  ghost predicate Named(sends: seq<Send>, ids: seq<nat>, inserted: seq<Send>) {
    && |ids| == |sends|
    && forall k :: 0 <= k < |ids| ==> ids[k] < |inserted| && CoreOf(sends[k]) == CoreOf(inserted[ids[k]])
  }

  /** The same of one slot, whose attempts are the number of times its send was handed out for a retry. */
  ghost predicate SlotNamed(s: Slot, owner: Option<nat>, inserted: seq<Send>, retried: seq<nat>) {
    && (s.Some? <==> owner.Some?)
    && (s.Some? ==>
          && owner.value < |inserted| && CoreOf(s.value) == CoreOf(inserted[owner.value])
          && s.value.attempts == Occurs(retried, owner.value))
  }

  ghost predicate TableNamed(table: seq<Slot>, owner: seq<Option<nat>>, inserted: seq<Send>, retried: seq<nat>) {
    |owner| == |table| && forall i :: 0 <= i < |table| ==> SlotNamed(table[i], owner[i], inserted, retried)
  }

  ghost predicate AllNamed(st: State, ids: Ids) {
    && TableNamed(st.table, ids.owner, st.inserted, ids.retried)
    && Named(st.resolved, ids.resolved, st.inserted) && Named(st.undelivered, ids.undelivered, st.inserted)
    && Named(st.evicted, ids.evicted, st.inserted) && Named(st.retried, ids.retried, st.inserted)
  }

  /** Every inserted send is in exactly one place, and was handed out for a retry at most twice. */
  ghost predicate OnePlaceEach(count: nat, ids: Ids) {
    && (forall id: nat :: id < count ==> Places(ids, id) == 1)
    && (forall id: nat :: Occurs(ids.retried, id) <= MAX_SEND_RETRIES)
  }

  ghost predicate Accounts(st: State, ids: Ids) {
    AllNamed(st, ids) && OnePlaceEach(|st.inserted|, ids)
  }

  /** What was written down stays, and a slot changes hands only to a send that was not there before. */
  ghost predicate Grows(st: State, ids: Ids, ids': Ids) {
    && ids.resolved <= ids'.resolved && ids.undelivered <= ids'.undelivered && ids.evicted <= ids'.evicted
    && ids.retried <= ids'.retried && |ids'.owner| == |ids.owner|
    && forall i :: 0 <= i < |ids.owner| && ids'.owner[i].Some? ==>
         ids'.owner[i] == ids.owner[i] || ids'.owner[i].value >= |st.inserted|
  }

  function AsIds(owner: Option<nat>): seq<nat> {
    if owner.None? then [] else [owner.value]
  }

  lemma NamedConcat(a: seq<Send>, b: seq<Send>, ids: seq<nat>, more: seq<nat>, inserted: seq<Send>)
    requires Named(a, ids, inserted) && Named(b, more, inserted)
    ensures Named(a + b, ids + more, inserted)
  {
  }

  lemma NamedLonger(sends: seq<Send>, ids: seq<nat>, inserted: seq<Send>, send: Send)
    requires Named(sends, ids, inserted)
    ensures Named(sends, ids, inserted + [send])
  {
  }

  lemma OwnerUpdate(owner: seq<Option<nat>>, i: nat, x: Option<nat>, id: nat)
    requires i < |owner|
    ensures Occurs(owner[i := x], Some(id)) + Occurs(AsIds(owner[i]), id) ==
            Occurs(owner, Some(id)) + Occurs(AsIds(x), id)
  {
    OccursUpdate(owner, i, x, Some(id));
    OccursOne(owner[i], Some(id));
    OccursOne(x, Some(id));
    OccursOfSlot(owner[i], id);
    OccursOfSlot(x, id);
  }

  lemma OccursOfSlot(owner: Option<nat>, id: nat)
    ensures Occurs(AsIds(owner), id) == if owner == Some(id) then 1 else 0
  {
    if owner.Some? {
      OccursOne(owner.value, id);
    }
  }

  // A send enters, and perhaps another one is evicted.

  lemma SentAccounts(st: State, e: Event, st': State, ids: Ids) returns (ids': Ids)
    requires e.Sent? && Step(st, e, st') && Accounts(st, ids)
    ensures Accounts(st', ids') && Grows(st, ids, ids')
  {
    var send := NewSend(e.ackHash, e.kind, e.now, e.frame);
    var evicted :| && Inserts(st.table, send, st'.table, evicted)
                   && st' == st.(table := st'.table, clock := e.now, inserted := st.inserted + [send],
                                 evicted := st.evicted + AsSeq(evicted));
    var i: nat :| i < |st.table| && st'.table == st.table[i := Some(send)] && evicted == st.table[i];
    ids' := PutAccounts(st, i, send, st', ids);
  }

  lemma PutAccounts(st: State, i: nat, send: Send, st': State, ids: Ids) returns (ids': Ids)
    requires i < |st.table| && send.attempts == 0 && Accounts(st, ids)
    requires st'.table == st.table[i := Some(send)]
    requires st'.inserted == st.inserted + [send] && st'.evicted == st.evicted + AsSeq(st.table[i])
    requires st'.resolved == st.resolved && st'.undelivered == st.undelivered && st'.retried == st.retried
    ensures Accounts(st', ids') && Grows(st, ids, ids')
  {
    var n: nat := |st.inserted|;
    ids' := ids.(owner := ids.owner[i := Some(n)], evicted := ids.evicted + AsIds(ids.owner[i]));
    PutNames(st, i, send, ids);
    assert SlotNamed(st.table[i], ids.owner[i], st.inserted, ids.retried);
    NamedConcat(st.evicted, AsSeq(st.table[i]), ids.evicted, AsIds(ids.owner[i]), st'.inserted);
    PutPlaces(st, i, ids, ids');
  }

  lemma PutNames(st: State, i: nat, send: Send, ids: Ids)
    requires i < |st.table| && send.attempts == 0 && AllNamed(st, ids)
    ensures var n, inserted := |st.inserted|, st.inserted + [send];
            && TableNamed(st.table[i := Some(send)], ids.owner[i := Some(n)], inserted, ids.retried)
            && Named(st.resolved, ids.resolved, inserted) && Named(st.undelivered, ids.undelivered, inserted)
            && Named(st.evicted, ids.evicted, inserted) && Named(st.retried, ids.retried, inserted)
  {
    NamedLonger(st.resolved, ids.resolved, st.inserted, send);
    NamedLonger(st.undelivered, ids.undelivered, st.inserted, send);
    NamedLonger(st.evicted, ids.evicted, st.inserted, send);
    NamedLonger(st.retried, ids.retried, st.inserted, send);
    NewIdNowhere(st, ids, |st.inserted|);
    forall j | 0 <= j < |st.table| && j != i
      ensures SlotNamed(st.table[j], ids.owner[j], st.inserted + [send], ids.retried)
    {
      assert SlotNamed(st.table[j], ids.owner[j], st.inserted, ids.retried);
    }
  }

  lemma PutPlaces(st: State, i: nat, ids: Ids, ids': Ids)
    requires i < |st.table| && Accounts(st, ids)
    requires ids' == ids.(owner := ids.owner[i := Some(|st.inserted|)], evicted := ids.evicted + AsIds(ids.owner[i]))
    ensures OnePlaceEach(|st.inserted| + 1, ids')
  {
    var n: nat := |st.inserted|;
    NewIdNowhere(st, ids, |st.inserted|);
    forall id: nat | id <= n
      ensures Places(ids', id) == 1
    {
      assert id < n ==> Places(ids, id) == 1;
      OwnerUpdate(ids.owner, i, Some(n), id);
      OccursOfSlot(Some(n), id);
      OccursConcat(ids.evicted, AsIds(ids.owner[i]), id);
    }
  }

  lemma NewIdNowhere(st: State, ids: Ids, n: nat)
    requires AllNamed(st, ids) && n == |st.inserted|
    ensures Places(ids, n) == 0 && Occurs(ids.retried, n) == 0
  {
    assert Some(n) !in ids.owner;
    assert n !in ids.resolved && n !in ids.undelivered && n !in ids.evicted && n !in ids.retried;
    OccursIff(ids.owner, Some(n));
    OccursIff(ids.resolved, n);
    OccursIff(ids.undelivered, n);
    OccursIff(ids.evicted, n);
    OccursIff(ids.retried, n);
  }

  // A send is resolved.

  lemma ResolveAccounts(st: State, now: nat, ackHash: Hash4, st': State, ids: Ids) returns (ids': Ids)
    requires StepResolve(st, now, ackHash, st') && Accounts(st, ids)
    ensures Accounts(st', ids') && Grows(st, ids, ids')
  {
    var resolved :| && Resolves(st.table, ackHash, st'.table, resolved)
                    && st' == st.(table := st'.table, clock := now, resolved := st.resolved + AsSeq(resolved));
    if resolved.Some? {
      var i: nat :| i < |st.table| && st'.table == st.table[i := None] && resolved == st.table[i];
      ids' := TakeAccounts(st, i, st', ids);
    } else {
      assert st'.resolved == st.resolved;
      ids' := ids;
    }
  }

  lemma TakeAccounts(st: State, i: nat, st': State, ids: Ids) returns (ids': Ids)
    requires i < |st.table| && Accounts(st, ids)
    requires st'.table == st.table[i := None] && st'.resolved == st.resolved + AsSeq(st.table[i])
    requires st'.inserted == st.inserted && st'.evicted == st.evicted
    requires st'.undelivered == st.undelivered && st'.retried == st.retried
    ensures Accounts(st', ids') && Grows(st, ids, ids')
  {
    ids' := ids.(owner := ids.owner[i := None], resolved := ids.resolved + AsIds(ids.owner[i]));
    TakePlaces(|st.inserted|, i, ids, ids');
    assert SlotNamed(st.table[i], ids.owner[i], st.inserted, ids.retried);
    NamedConcat(st.resolved, AsSeq(st.table[i]), ids.resolved, AsIds(ids.owner[i]), st.inserted);
    forall j | 0 <= j < |st.table|
      ensures SlotNamed(st'.table[j], ids'.owner[j], st'.inserted, ids'.retried)
    {
      assert SlotNamed(st.table[j], ids.owner[j], st.inserted, ids.retried);
    }
  }

  lemma TakePlaces(count: nat, i: nat, ids: Ids, ids': Ids)
    requires i < |ids.owner| && OnePlaceEach(count, ids)
    requires ids' == ids.(owner := ids.owner[i := None], resolved := ids.resolved + AsIds(ids.owner[i]))
    ensures OnePlaceEach(count, ids')
  {
    forall id: nat | id < count
      ensures Places(ids', id) == 1
    {
      assert Places(ids, id) == 1;
      OwnerUpdate(ids.owner, i, None, id);
      OccursOfSlot(None, id);
      OccursConcat(ids.resolved, AsIds(ids.owner[i]), id);
    }
  }

  // A sweep.

  function SweptOwner(table: seq<Slot>, owner: seq<Option<nat>>, now: nat, answers: seq<bool>): (after: seq<Option<nat>>)
    requires |answers| == |table| == |owner|
    ensures |after| == |owner|
    ensures forall i :: 0 <= i < |after| ==> after[i] == if GivesUp(table[i], now, answers[i]) then None else owner[i]
  {
    if table == [] then []
    else
      var n := |table| - 1;
      SweptOwner(table[..n], owner[..n], now, answers[..n])
      + [if GivesUp(table[n], now, answers[n]) then None else owner[n]]
  }

  function UndeliveredIds(table: seq<Slot>, owner: seq<Option<nat>>, now: nat, answers: seq<bool>): seq<nat>
    requires |answers| == |table| == |owner|
  {
    if table == [] then []
    else
      var n := |table| - 1;
      UndeliveredIds(table[..n], owner[..n], now, answers[..n])
      + if GivesUp(table[n], now, answers[n]) then AsIds(owner[n]) else []
  }

  function RetriedIds(table: seq<Slot>, owner: seq<Option<nat>>, now: nat, answers: seq<bool>): seq<nat>
    requires |answers| == |table| == |owner|
  {
    if table == [] then []
    else
      var n := |table| - 1;
      RetriedIds(table[..n], owner[..n], now, answers[..n])
      + if Retries(table[n], now, answers[n]) then AsIds(owner[n]) else []
  }

  lemma {:induction false} SweepNames(table: seq<Slot>, owner: seq<Option<nat>>, now: nat, answers: seq<bool>,
                                      inserted: seq<Send>, retried: seq<nat>)
    requires |answers| == |table| && TableNamed(table, owner, inserted, retried)
    ensures Named(Undelivered(table, now, answers), UndeliveredIds(table, owner, now, answers), inserted)
    ensures Named(Retried(table, now, answers), RetriedIds(table, owner, now, answers), inserted)
  {
    if table != [] {
      var n := |table| - 1;
      SweepNames(table[..n], owner[..n], now, answers[..n], inserted, retried);
      assert SlotNamed(table[n], owner[n], inserted, retried);
    }
  }

  lemma {:induction false} SweepPlaces(table: seq<Slot>, owner: seq<Option<nat>>, now: nat, answers: seq<bool>, id: nat)
    requires |answers| == |table| == |owner|
    ensures Occurs(owner, Some(id)) ==
            Occurs(SweptOwner(table, owner, now, answers), Some(id))
            + Occurs(UndeliveredIds(table, owner, now, answers), id)
  {
    if table != [] {
      var n := |table| - 1;
      SweepPlaces(table[..n], owner[..n], now, answers[..n], id);
      var after := SweptOwner(table, owner, now, answers);
      assert after[..n] == SweptOwner(table[..n], owner[..n], now, answers[..n]);
      OccursOfSlot(owner[n], id);
      OccursConcat(UndeliveredIds(table[..n], owner[..n], now, answers[..n]),
                  if GivesUp(table[n], now, answers[n]) then AsIds(owner[n]) else [], id);
    }
  }

  /** A sweep retries nothing that is not in the table. */
  lemma {:induction false} NotOwnedNotRetried(table: seq<Slot>, owner: seq<Option<nat>>, now: nat,
                                              answers: seq<bool>, id: nat)
    requires |answers| == |table| == |owner| && Some(id) !in owner
    ensures Occurs(RetriedIds(table, owner, now, answers), id) == 0
  {
    if table != [] {
      var n := |table| - 1;
      NotOwnedNotRetried(table[..n], owner[..n], now, answers[..n], id);
      assert owner[n] in owner;
      OccursOfSlot(owner[n], id);
      var again := if Retries(table[n], now, answers[n]) then AsIds(owner[n]) else [];
      OccursConcat(RetriedIds(table[..n], owner[..n], now, answers[..n]), again, id);
    }
  }

  /** A send with a single slot is retried by a sweep exactly as often as that slot is: once or not at all. */
  lemma {:induction false} OwnedRetriedOnce(table: seq<Slot>, owner: seq<Option<nat>>, now: nat, answers: seq<bool>,
                                            i: nat, id: nat)
    requires |answers| == |table| == |owner| && i < |owner|
    requires owner[i] == Some(id) && Occurs(owner, Some(id)) == 1
    ensures Occurs(RetriedIds(table, owner, now, answers), id) == if Retries(table[i], now, answers[i]) then 1 else 0
  {
    var n := |table| - 1;
    if i < n {
      assert owner[..n][i] == Some(id);
      OccursIff(owner[..n], Some(id));
      OccursOfSlot(owner[n], id);
      OwnedRetriedOnce(table[..n], owner[..n], now, answers[..n], i, id);
    } else {
      OccursIff(owner[..n], Some(id));
      NotOwnedNotRetried(table[..n], owner[..n], now, answers[..n], id);
      OccursOfSlot(owner[n], id);
    }
    var again := if Retries(table[n], now, answers[n]) then AsIds(owner[n]) else [];
    OccursConcat(RetriedIds(table[..n], owner[..n], now, answers[..n]), again, id);
  }

  ghost predicate SlotsDistinct(owner: seq<Option<nat>>) {
    forall id: nat :: Occurs(owner, Some(id)) <= 1
  }

  /** After a sweep the attempts of every slot are still the number of its send's retries, now at most two. */
  lemma SweepKeepsSlots(table: seq<Slot>, owner: seq<Option<nat>>, now: nat, answers: seq<bool>, inserted: seq<Send>,
                        retried: seq<nat>)
    requires |answers| == |table| && TableNamed(table, owner, inserted, retried) && SlotsDistinct(owner)
    requires forall id: nat :: Occurs(retried, id) <= MAX_SEND_RETRIES
    ensures TableNamed(Swept(table, now, answers), SweptOwner(table, owner, now, answers), inserted,
                       retried + RetriedIds(table, owner, now, answers))
    ensures forall id: nat :: Occurs(retried + RetriedIds(table, owner, now, answers), id) <= MAX_SEND_RETRIES
  {
    var more := RetriedIds(table, owner, now, answers);
    forall i | 0 <= i < |table|
      ensures SlotNamed(SweptSlot(table[i], now, answers[i]),
                        SweptOwner(table, owner, now, answers)[i], inserted, retried + more)
    {
      assert SlotNamed(table[i], owner[i], inserted, retried);
      if owner[i].Some? {
        OccursIff(owner, owner[i]);
        OwnedRetriedOnce(table, owner, now, answers, i, owner[i].value);
        OccursConcat(retried, more, owner[i].value);
      }
    }
    forall id: nat
      ensures Occurs(retried + more, id) <= MAX_SEND_RETRIES
    {
      OccursConcat(retried, more, id);
      if Some(id) in owner {
        var i :| 0 <= i < |owner| && owner[i] == Some(id);
        assert SlotNamed(table[i], owner[i], inserted, retried);
        OccursIff(owner, owner[i]);
        OwnedRetriedOnce(table, owner, now, answers, i, id);
      } else {
        NotOwnedNotRetried(table, owner, now, answers, id);
      }
    }
  }

  lemma OwnersDistinct(st: State, ids: Ids)
    requires Accounts(st, ids)
    ensures SlotsDistinct(ids.owner)
  {
    forall id: nat
      ensures Occurs(ids.owner, Some(id)) <= 1
    {
      OccursIff(ids.owner, Some(id));
      if Some(id) in ids.owner {
        var i :| 0 <= i < |ids.owner| && ids.owner[i] == Some(id);
        assert SlotNamed(st.table[i], ids.owner[i], st.inserted, ids.retried);
        assert Places(ids, id) == 1;
      }
    }
  }

  lemma SweepAccounts(st: State, now: nat, answers: seq<bool>, st': State, ids: Ids) returns (ids': Ids)
    requires |answers| == |st.table| && Accounts(st, ids)
    requires st' == st.(table := Swept(st.table, now, answers), clock := now, lastSweep := now,
                        undelivered := st.undelivered + Undelivered(st.table, now, answers),
                        retried := st.retried + Retried(st.table, now, answers))
    ensures Accounts(st', ids') && Grows(st, ids, ids')
  {
    var owner := ids.owner;
    var given, again := UndeliveredIds(st.table, owner, now, answers), RetriedIds(st.table, owner, now, answers);
    ids' := Ids(SweptOwner(st.table, owner, now, answers), ids.resolved, ids.undelivered + given, ids.evicted,
                ids.retried + again);
    OwnersDistinct(st, ids);
    SweepNames(st.table, owner, now, answers, st.inserted, ids.retried);
    NamedConcat(st.undelivered, Undelivered(st.table, now, answers), ids.undelivered, given, st.inserted);
    NamedConcat(st.retried, Retried(st.table, now, answers), ids.retried, again, st.inserted);
    SweepKeepsSlots(st.table, owner, now, answers, st.inserted, ids.retried);
    SweepOnePlace(st.table, now, answers, |st.inserted|, ids, ids');
  }

  lemma SweepOnePlace(table: seq<Slot>, now: nat, answers: seq<bool>, count: nat, ids: Ids, ids': Ids)
    requires |answers| == |table| == |ids.owner| && OnePlaceEach(count, ids)
    requires ids'.owner == SweptOwner(table, ids.owner, now, answers)
    requires ids'.undelivered == ids.undelivered + UndeliveredIds(table, ids.owner, now, answers)
    requires ids'.resolved == ids.resolved && ids'.evicted == ids.evicted
    ensures forall id: nat :: id < count ==> Places(ids', id) == 1
  {
    forall id: nat | id < count
      ensures Places(ids', id) == 1
    {
      assert Places(ids, id) == 1;
      SweepPlaces(table, ids.owner, now, answers, id);
      OccursConcat(ids.undelivered, UndeliveredIds(table, ids.owner, now, answers), id);
    }
  }

  lemma StepAccounts(st: State, e: Event, st': State, ids: Ids) returns (ids': Ids)
    requires Step(st, e, st') && Accounts(st, ids)
    ensures Accounts(st', ids') && Grows(st, ids, ids')
  {
    match e
    case Sent(_, _, _, _) => ids' := SentAccounts(st, e, st', ids);
    case Acked(now, ackHash) => ids' := ResolveAccounts(st, now, ackHash, st', ids);
    case TxEvicted(now, tag) =>
      if tag.Some? {
        ids' := ResolveAccounts(st, now, tag.value, st', ids);
      } else {
        ids' := ids;
      }
    case Sweep(now, answers) => ids' := SweepAccounts(st, now, answers, st', ids);
  }

  lemma RunShorter(events: seq<Event>, states: seq<State>)
    requires IsRun(events, states) && events != []
    ensures var n := |events| - 1;
            IsRun(events[..n], states[..n + 1]) && Step(states[n], events[n], states[n + 1])
  {
  }

  /**
   * Over any run every send ever inserted is told apart from all others, even from one with the same hash and
   * bytes: at any moment it waits in one slot, or was resolved, undelivered or evicted, exactly one of these and
   * exactly once, with hash, kind, time and bytes unchanged; it was handed out for a retry at most twice, as often as
   * its slot counts; and what became of it is never taken back.
   */
  lemma {:induction false} EverySendLeavesOnce(events: seq<Event>, states: seq<State>) returns (all: seq<Ids>)
    requires IsRun(events, states)
    ensures |all| == |states|
    ensures forall i :: 0 <= i < |all| ==> Accounts(states[i], all[i])
    ensures forall i :: 0 <= i < |events| ==> Grows(states[i], all[i], all[i + 1])
    decreases |events|
  {
    if events == [] {
      var ids := BootAccounts();
      return [ids];
    }
    var n := |events| - 1;
    RunShorter(events, states);
    var earlier := EverySendLeavesOnce(events[..n], states[..n + 1]);
    assert Accounts(states[..n + 1][n], earlier[n]);
    var ids := StepAccounts(states[n], events[n], states[n + 1], earlier[n]);
    AccountsLonger(states, earlier, ids);
    all := earlier + [ids];
  }

  lemma AccountsLonger(states: seq<State>, earlier: seq<Ids>, ids: Ids)
    requires |states| == |earlier| + 1 && earlier != []
    requires forall i :: 0 <= i < |earlier| ==> Accounts(states[..|earlier|][i], earlier[i])
    requires forall i :: 0 <= i < |earlier| - 1 ==> Grows(states[..|earlier|][i], earlier[i], earlier[i + 1])
    requires Accounts(states[|earlier|], ids) && Grows(states[|earlier| - 1], earlier[|earlier| - 1], ids)
    ensures var all := earlier + [ids];
            && (forall i :: 0 <= i < |all| ==> Accounts(states[i], all[i]))
            && forall i :: 0 <= i < |earlier| ==> Grows(states[i], all[i], all[i + 1])
  {
    var n := |earlier|;
    assert forall i :: 0 <= i < n ==> states[..n][i] == states[i];
  }

  lemma BootAccounts() returns (ids: Ids)
    ensures Accounts(Boot(), ids)
  {
    ids := Ids(seq(MAX_OUTSTANDING_SENDS, _ => None), [], [], [], []);
  }

  /** The sends of a run, in order. */
  function SendsOf(events: seq<Event>): seq<Event> {
    if events == [] then []
    else
      var last := events[|events| - 1];
      SendsOf(events[..|events| - 1]) + if last.Sent? then [last] else []
  }

  /** What the run calls inserted is what it was given to send, each with its own hash, kind, time and bytes. */
  lemma {:induction false} InsertedAreTheSends(events: seq<Event>, states: seq<State>)
    requires IsRun(events, states)
    ensures var inserted, sends := states[|events|].inserted, SendsOf(events);
            && |inserted| == |sends|
            && forall j :: 0 <= j < |sends| ==>
                 && sends[j].Sent?
                 && inserted[j].ackHash == sends[j].ackHash && inserted[j].kind == sends[j].kind
                 && inserted[j].sentAt == sends[j].now && inserted[j].frame <= sends[j].frame
                 && (|sends[j].frame| <= 255 ==> inserted[j].frame == sends[j].frame)
                 && (|sends[j].frame| > 255 ==> |inserted[j].frame| == 255)
    decreases |events|
  {
    if events != [] {
      var n := |events| - 1;
      assert IsRun(events[..n], states[..n + 1]) && Step(states[n], events[n], states[n + 1]);
      InsertedAreTheSends(events[..n], states[..n + 1]);
      if events[n].Sent? {
        FreshSend(events[n].ackHash, events[n].kind, events[n].now, events[n].frame);
      }
    }
  }

  // ── How long a send can wait ───────────────────────────────────────────────

  /** Sweeps, the boot counting as one, are never more than `g` ms apart, seen from any event. */
  ghost predicate SweptEvery(events: seq<Event>, states: seq<State>, g: nat)
    requires |states| == |events| + 1
  {
    forall i :: 0 <= i < |events| ==> events[i].now <= states[i].lastSweep + g
  }

  /** The latest deadline a send can have after so many retries, counted from when it was sent. */
  function LatestDeadline(attempts: nat, g: nat): nat {
    if attempts == 0 then 30_000 else if attempts == 1 then 84_998 + g else 159_996 + 2 * g
  }

  ghost predicate SlotTimely(s: Slot, lastSweep: nat, g: nat) {
    s.Some? ==>
      && s.value.attempts <= MAX_SEND_RETRIES
      && lastSweep < s.value.deadline <= s.value.sentAt + LatestDeadline(s.value.attempts, g)
  }

  ghost predicate Timely(st: State, g: nat) {
    && st.lastSweep <= st.clock
    && forall i :: 0 <= i < |st.table| ==> SlotTimely(st.table[i], st.lastSweep, g)
  }

  lemma SweptSlotTimely(s: Slot, lastSweep: nat, now: nat, answer: bool, g: nat)
    requires SlotTimely(s, lastSweep, g) && now <= lastSweep + g
    ensures SlotTimely(SweptSlot(s, now, answer), now, g)
  {
  }

  lemma StepTimely(st: State, e: Event, st': State, g: nat)
    requires Step(st, e, st') && Timely(st, g) && e.now <= st.lastSweep + g
    ensures Timely(st', g)
  {
    match e
    case Sweep(now, answers) =>
      forall i | 0 <= i < |st'.table|
        ensures SlotTimely(st'.table[i], st'.lastSweep, g)
      {
        SweptSlotTimely(st.table[i], st.lastSweep, now, answers[i], g);
      }
    case _ =>
  }

  lemma {:induction false} RunTimely(events: seq<Event>, states: seq<State>, g: nat, i: nat)
    requires IsRun(events, states) && SweptEvery(events, states, g) && i < |states|
    ensures Timely(states[i], g)
  {
    if i > 0 {
      RunTimely(events, states, g, i - 1);
      StepTimely(states[i - 1], events[i - 1], states[i], g);
    }
  }

  ghost predicate SlotPatient(s: Slot) {
    s.Some? ==>
      s.value.deadline >= s.value.sentAt +
        if s.value.attempts == 0 then 30_000 else if s.value.attempts == 1 then 80_000 else 150_000
  }

  lemma SweptSlotPatient(s: Slot, now: nat, answer: bool)
    requires SlotPatient(s)
    ensures SlotPatient(SweptSlot(s, now, answer))
  {
  }

  lemma {:induction false} RunPatient(events: seq<Event>, states: seq<State>, i: nat)
    requires IsRun(events, states) && i < |states|
    ensures forall j :: 0 <= j < |states[i].table| ==> SlotPatient(states[i].table[j])
  {
    if i > 0 {
      RunPatient(events, states, i - 1);
      var st, st' := states[i - 1], states[i];
      assert Step(st, events[i - 1], st');
      match events[i - 1]
      case Sweep(now, answers) =>
        forall j | 0 <= j < |st'.table|
          ensures SlotPatient(st'.table[j])
        {
          SweptSlotPatient(st.table[j], now, answers[j]);
        }
      case _ =>
    }
  }

  /** Over any run no send is due, and so none is retried or given up by a sweep, before its time. */
  lemma NoSendIsDueEarly(events: seq<Event>, states: seq<State>, i: nat, slot: nat)
    requires IsRun(events, states) && i < |states|
    requires slot < |states[i].table| && states[i].table[slot].Some?
    ensures var s := states[i].table[slot].value;
            && (s.attempts == 0 ==> s.deadline >= s.sentAt + 30_000)
            && (s.attempts == 1 ==> s.deadline >= s.sentAt + 80_000)
            && (s.attempts >= 2 ==> s.deadline >= s.sentAt + 150_000)
  {
    RunPatient(events, states, i);
    assert SlotPatient(states[i].table[slot]);
  }

  /** With sweeps at most `g` ms apart no send is still waiting 159 996 + 3g ms after it was sent. */
  lemma NoSendWaitsLonger(events: seq<Event>, states: seq<State>, g: nat, i: nat, slot: nat, now: nat)
    requires IsRun(events, states) && SweptEvery(events, states, g) && i < |states|
    requires slot < |states[i].table| && states[i].table[slot].Some?
    requires now <= states[i].lastSweep + g
    ensures now < states[i].table[slot].value.sentAt + 159_996 + 3 * g
  {
    RunTimely(events, states, g, i);
    assert SlotTimely(states[i].table[slot], states[i].lastSweep, g);
  }
}
