/**
 * The transmit queue and the table of outstanding sends together: how many copies of a send are queued, and what an
 * eviction from the queue says about them.
 */
module Delivery {
  import opened Words
  import opened Occurrences
  import Tx
  import opened Outstanding

  function TagsOf(entries: seq<Tx.Entry>): seq<Tx.Tag> {
    if entries == [] then [] else TagsOf(entries[..|entries| - 1]) + [entries[|entries| - 1].tag]
  }

  function TagsOfReports(reports: seq<Tx.Report>): seq<Tx.Tag> {
    if reports == [] then [] else TagsOfReports(reports[..|reports| - 1]) + [reports[|reports| - 1].tag]
  }

  /** How many frames with that tag are among the entries. */
  function Copies(entries: seq<Tx.Entry>, tag: Tx.Tag): nat {
    Occurs(TagsOf(entries), tag)
  }

  function Dropped(reports: seq<Tx.Report>, tag: Tx.Tag): nat {
    Occurs(TagsOfReports(reports), tag)
  }

  // ── The queue, tag by tag ──────────────────────────────────────────────────

  lemma {:induction false} TagsConcat(a: seq<Tx.Entry>, b: seq<Tx.Entry>)
    ensures TagsOf(a + b) == TagsOf(a) + TagsOf(b)
  {
    if b == [] {
      assert a + b == a;
    } else {
      TagsConcat(a, b[..|b| - 1]);
      assert (a + b)[..|a + b| - 1] == a + b[..|b| - 1];
    }
  }

  lemma CopiesConcat(a: seq<Tx.Entry>, b: seq<Tx.Entry>, tag: Tx.Tag)
    ensures Copies(a + b, tag) == Copies(a, tag) + Copies(b, tag)
  {
    TagsConcat(a, b);
    OccursConcat(TagsOf(a), TagsOf(b), tag);
  }

  lemma CopiesOfOne(e: Tx.Entry, tag: Tx.Tag)
    ensures Copies([e], tag) == if e.tag == tag then 1 else 0
  {
    assert [e][..0] == [];
    assert TagsOf([e]) == [e.tag];
    OccursOne(e.tag, tag);
  }

  lemma DroppedPush(reports: seq<Tx.Report>, r: Tx.Report, tag: Tx.Tag)
    ensures Dropped(reports + [r], tag) == Dropped(reports, tag) + if r.tag == tag then 1 else 0
  {
    assert (reports + [r])[..|reports|] == reports;
    OccursConcat(TagsOfReports(reports), [r.tag], tag);
    OccursOne(r.tag, tag);
  }

  /** The oldest entry of a queue and the others. */
  lemma CopiesOfFirst(pending: seq<Tx.Entry>, tag: Tx.Tag)
    requires pending != []
    ensures Copies(pending, tag) == Copies(pending[1..], tag) + if pending[0].tag == tag then 1 else 0
  {
    assert pending == [pending[0]] + pending[1..];
    CopiesConcat([pending[0]], pending[1..], tag);
    CopiesOfOne(pending[0], tag);
  }

  ghost predicate Balanced(r: Tx.Run, tag: Tx.Tag) {
    Copies(r.enqueued, tag) == Copies(r.popped, tag) + Dropped(r.reports, tag) + Copies(r.pending, tag)
  }

  lemma EnqueueBalanced(r: Tx.Run, frame: seq<u8>, t: Tx.Tag, tag: Tx.Tag)
    requires Balanced(r, tag)
    ensures Balanced(Tx.Step(r, Tx.Enqueue(frame, t)), tag)
  {
    var e := Tx.Entry(Tx.Truncated(frame), t);
    CopiesConcat(r.enqueued, [e], tag);
    PendingBalanced(r.pending, r.reports, e, tag);
  }

  /** Queued and dropped frames together grow by the enqueued one. */
  lemma PendingBalanced(pending: seq<Tx.Entry>, reports: seq<Tx.Report>, e: Tx.Entry, tag: Tx.Tag)
    ensures var reported := Tx.Reported(pending);
            Copies(Tx.Enqueued(pending, e), tag)
            + Dropped(reports + (if reported.Some? then [reported.value] else []), tag) ==
            Copies(pending, tag) + Dropped(reports, tag) + Copies([e], tag)
  {
    if |pending| >= Tx.TX_QUEUE_SLOTS {
      CopiesConcat(pending[1..], [e], tag);
      CopiesOfFirst(pending, tag);
      DroppedPush(reports, Tx.ReportOf(pending[0]), tag);
    } else {
      CopiesConcat(pending, [e], tag);
      assert reports + [] == reports;
    }
  }

  lemma PopBalanced(r: Tx.Run, tag: Tx.Tag)
    requires Balanced(r, tag)
    ensures Balanced(Tx.Step(r, Tx.PopFront), tag)
  {
    if r.pending == [] {
      assert r.popped + [] == r.popped;
    } else {
      CopiesOfFirst(r.pending, tag);
      CopiesConcat(r.popped, [r.pending[0]], tag);
      CopiesOfOne(r.pending[0], tag);
    }
  }

  lemma {:induction false} RunBalanced(ops: seq<Tx.Op>, tag: Tx.Tag)
    ensures Balanced(Tx.RunOf(ops), tag)
  {
    if ops != [] {
      RunBalanced(ops[..|ops| - 1], tag);
      match ops[|ops| - 1]
      case Enqueue(frame, t) => EnqueueBalanced(Tx.RunOf(ops[..|ops| - 1]), frame, t, tag);
      case PopFront => PopBalanced(Tx.RunOf(ops[..|ops| - 1]), tag);
    }
  }

  // ── Queue and table together ───────────────────────────────────────────────

  /** The table without the first send that has the hash. */
  function ResolvedBy(table: seq<Slot>, h: Hash4): (after: seq<Slot>)
    ensures |after| == |table|
  {
    if table == [] then []
    else if Matches(table[0], h) then [None] + table[1..]
    else [table[0]] + ResolvedBy(table[1..], h)
  }

  /** That is what `resolve` leaves. */
  lemma {:induction false} ResolvesToResolvedBy(table: seq<Slot>, h: Hash4, i: nat)
    ensures IsFirstMatch(table, i, h) ==> ResolvedBy(table, h) == table[i := None]
    ensures (forall j :: 0 <= j < |table| ==> !Matches(table[j], h)) ==> ResolvedBy(table, h) == table
  {
    if table != [] && !Matches(table[0], h) {
      var rest := table[1..];
      ResolvesToResolvedBy(rest, h, if i == 0 then 0 else i - 1);
      assert table == [table[0]] + rest;
      if IsFirstMatch(table, i, h) {
        assert IsFirstMatch(rest, i - 1, h);
        assert table[i := None] == [table[0]] + rest[i - 1 := None];
      }
    }
  }

  /** Every tagged eviction resolves the send it names. */
  function ResolveAll(table: seq<Slot>, tags: seq<Tx.Tag>): (after: seq<Slot>)
    ensures |after| == |table|
  {
    if tags == [] then table
    else
      var before, tag := ResolveAll(table, tags[..|tags| - 1]), tags[|tags| - 1];
      if tag.None? then before else ResolvedBy(before, tag.value)
  }

  /** The queue's operations so far, and then one enqueue for each send. */
  function EnqueueEach(ops: seq<Tx.Op>, sends: seq<Send>): seq<Tx.Op> {
    if sends == [] then ops
    else
      var last := sends[|sends| - 1];
      EnqueueEach(ops, sends[..|sends| - 1]) + [Tx.Enqueue(last.frame, Some(last.ackHash))]
  }

  function HashesOf(sends: seq<Send>): seq<Hash4> {
    if sends == [] then [] else HashesOf(sends[..|sends| - 1]) + [sends[|sends| - 1].ackHash]
  }

  datatype Event =
    | NewMessage(now: u64, ackHash: Hash4, kind: Kind, frame: seq<u8>)
    | OtherFrame(frame: seq<u8>)
    | Transmitted
    | AckReceived(ackHash: Hash4)
    | SweepDue(now: u64, answers: seq<bool>)

  /** What the queue was asked to do, the table, and the hashes of all sends and of all retries so far. */
  datatype Joint = Joint(ops: seq<Tx.Op>, table: seq<Slot>, sent: seq<Hash4>, retried: seq<Hash4>)

  function Start(): Joint {
    Joint([], seq(MAX_OUTSTANDING_SENDS, _ => None), [], [])
  }

  function QueueOf(s: Joint): Tx.Run {
    Tx.RunOf(s.ops)
  }

  /** The tags of the frames evicted from the queue on the way to `ops'`. */
  function Evicted(s: Joint, ops': seq<Tx.Op>): seq<Tx.Tag> {
    var before, after := QueueOf(s).reports, Tx.RunOf(ops').reports;
    if |before| <= |after| then TagsOfReports(after[|before|..]) else []
  }

  /** One pass of the dispatcher; a sweep resolves the evictions of its retries only when it is done. */
  ghost predicate JointStep(s: Joint, e: Event, s': Joint) {
    match e
    case NewMessage(now, h, kind, frame) =>
      && s'.ops == s.ops + [Tx.Enqueue(frame, Some(h))] && s'.sent == s.sent + [h] && s'.retried == s.retried
      && exists dropped ::
           Inserts(ResolveAll(s.table, Evicted(s, s'.ops)), NewSend(h, kind, now, frame), s'.table, dropped)
    case OtherFrame(frame) =>
      var ops' := s.ops + [Tx.Enqueue(frame, None)];
      s' == Joint(ops', ResolveAll(s.table, Evicted(s, ops')), s.sent, s.retried)
    case Transmitted => s' == s.(ops := s.ops + [Tx.PopFront])
    case AckReceived(h) => s' == s.(table := ResolvedBy(s.table, h))
    case SweepDue(now, answers) =>
      && |answers| == |s.table|
      && var again := Retried(s.table, now, answers);
         var ops' := EnqueueEach(s.ops, again);
         s' == Joint(ops', ResolveAll(Swept(s.table, now, answers), Evicted(s, ops')), s.sent,
                     s.retried + HashesOf(again))
  }

  ghost predicate IsJointRun(events: seq<Event>, states: seq<Joint>) {
    && |states| == |events| + 1
    && states[0] == Start()
    && forall i :: 0 <= i < |events| ==> JointStep(states[i], events[i], states[i + 1])
  }

  /** Every copy ever queued is the first one of a send or a retry. */
  ghost predicate CopiesCounted(s: Joint, h: Hash4) {
    Copies(QueueOf(s).enqueued, Some(h)) == Occurs(s.sent, h) + Occurs(s.retried, h)
  }

  lemma OneMoreOp(ops: seq<Tx.Op>, op: Tx.Op)
    ensures Tx.RunOf(ops + [op]) == Tx.Step(Tx.RunOf(ops), op)
  {
    assert (ops + [op])[..|ops|] == ops;
  }

  lemma EnqueuedOneMore(ops: seq<Tx.Op>, frame: seq<u8>, t: Tx.Tag, tag: Tx.Tag)
    ensures Copies(Tx.RunOf(ops + [Tx.Enqueue(frame, t)]).enqueued, tag) ==
            Copies(Tx.RunOf(ops).enqueued, tag) + if t == tag then 1 else 0
  {
    OneMoreOp(ops, Tx.Enqueue(frame, t));
    var e := Tx.Entry(Tx.Truncated(frame), t);
    CopiesConcat(Tx.RunOf(ops).enqueued, [e], tag);
    CopiesOfOne(e, tag);
  }

  lemma {:induction false} EnqueuedAllOfThem(ops: seq<Tx.Op>, sends: seq<Send>, h: Hash4)
    ensures Copies(Tx.RunOf(EnqueueEach(ops, sends)).enqueued, Some(h)) ==
            Copies(Tx.RunOf(ops).enqueued, Some(h)) + Occurs(HashesOf(sends), h)
  {
    if sends != [] {
      var before, last := sends[..|sends| - 1], sends[|sends| - 1];
      EnqueuedAllOfThem(ops, before, h);
      EnqueuedOneMore(EnqueueEach(ops, before), last.frame, Some(last.ackHash), Some(h));
      assert sends == before + [last];
      HashesOfMore(before, last, h);
    }
  }

  lemma HashesOfMore(before: seq<Send>, last: Send, h: Hash4)
    ensures Occurs(HashesOf(before + [last]), h) ==
            Occurs(HashesOf(before), h) + if last.ackHash == h then 1 else 0
  {
    assert (before + [last])[..|before|] == before;
    OccursConcat(HashesOf(before), [last.ackHash], h);
    OccursOne(last.ackHash, h);
  }

  lemma StepCounted(s: Joint, e: Event, s': Joint, h: Hash4)
    requires JointStep(s, e, s') && CopiesCounted(s, h)
    ensures CopiesCounted(s', h)
  {
    match e
    case NewMessage(now, hash, kind, frame) =>
      EnqueuedOneMore(s.ops, frame, Some(hash), Some(h));
      OccursConcat(s.sent, [hash], h);
      OccursOne(hash, h);
    case OtherFrame(frame) => EnqueuedOneMore(s.ops, frame, None, Some(h));
    case Transmitted => OneMoreOp(s.ops, Tx.PopFront);
    case AckReceived(_) =>
    case SweepDue(now, answers) =>
      var again := Retried(s.table, now, answers);
      EnqueuedAllOfThem(s.ops, again, h);
      OccursConcat(s.retried, HashesOf(again), h);
  }

  lemma {:induction false} RunCounted(events: seq<Event>, states: seq<Joint>, i: nat, h: Hash4)
    requires IsJointRun(events, states) && i < |states|
    ensures CopiesCounted(states[i], h)
  {
    if i > 0 {
      RunCounted(events, states, i - 1, h);
      StepCounted(states[i - 1], events[i - 1], states[i], h);
    }
  }

  /**
   * At any moment of any joint run, the copies of a send still queued are those sent and retried less those
   * transmitted and evicted; a send that was queued once and evicted has none.
   */
  lemma CopiesLeft(events: seq<Event>, states: seq<Joint>, i: nat, h: Hash4)
    requires IsJointRun(events, states) && i < |states|
    ensures var s := states[i];
            var q := QueueOf(s);
            var queued := Occurs(s.sent, h) + Occurs(s.retried, h);
            var gone := Copies(q.popped, Some(h)) + Dropped(q.reports, Some(h));
            && Copies(q.pending, Some(h)) == queued - gone
            && (Dropped(q.reports, Some(h)) > 0 && queued == 1 ==> Copies(q.pending, Some(h)) == 0)
  {
    RunCounted(events, states, i, h);
    RunBalanced(states[i].ops, Some(h));
  }

  // ── One step, told from the state before it ────────────────────────────────

  lemma {:induction false} QueueBounded(ops: seq<Tx.Op>)
    ensures |Tx.RunOf(ops).pending| <= Tx.TX_QUEUE_SLOTS
  {
    if ops != [] {
      QueueBounded(ops[..|ops| - 1]);
    }
  }

  function EntriesOf(sends: seq<Send>): seq<Tx.Entry> {
    if sends == [] then []
    else
      var last := sends[|sends| - 1];
      EntriesOf(sends[..|sends| - 1]) + [Tx.Entry(Tx.Truncated(last.frame), Some(last.ackHash))]
  }

  /** The frames that the event adds to the queue. */
  function QueuedNow(s: Joint, e: Event): seq<Tx.Entry> {
    match e
    case NewMessage(_, h, _, frame) => [Tx.Entry(Tx.Truncated(frame), Some(h))]
    case OtherFrame(frame) => [Tx.Entry(Tx.Truncated(frame), None)]
    case SweepDue(now, answers) => if |answers| == |s.table| then EntriesOf(Retried(s.table, now, answers)) else []
    case _ => []
  }

  /** How many of so many frames a queue of four slots cannot hold. */
  function Excess(n: nat): nat {
    SatSub(n, Tx.TX_QUEUE_SLOTS)
  }

  /** The queue holds the newest four of `all`, and has reported the others, behind `reports`. */
  ghost predicate Holding(r: Tx.Run, all: seq<Tx.Entry>, reports: seq<Tx.Report>) {
    r.pending == all[Excess(|all|)..] && r.reports == reports + Tx.Reports(all[..Excess(|all|)])
  }

  lemma HoldingOneMore(r: Tx.Run, all: seq<Tx.Entry>, reports: seq<Tx.Report>, frame: seq<u8>, t: Tx.Tag)
    requires Holding(r, all, reports)
    ensures Holding(Tx.Step(r, Tx.Enqueue(frame, t)), all + [Tx.Entry(Tx.Truncated(frame), t)], reports)
  {
    var e := Tx.Entry(Tx.Truncated(frame), t);
    var k := Excess(|all|);
    if |all| >= Tx.TX_QUEUE_SLOTS {
      assert (all + [e])[..k + 1] == all[..k] + [all[k]];
      assert (all + [e])[k + 1..] == all[k..][1..] + [e];
      assert Tx.Reports(all[..k] + [all[k]]) == Tx.Reports(all[..k]) + [Tx.ReportOf(all[k])];
    } else {
      assert (all + [e])[0..] == all[0..] + [e];
      assert r.reports + [] == r.reports;
      assert (all + [e])[..0] == all[..0];
    }
  }

  lemma HoldingAtFirst(r: Tx.Run, all: seq<Tx.Entry>)
    requires |r.pending| <= Tx.TX_QUEUE_SLOTS && all == r.pending
    ensures Holding(r, all, r.reports)
  {
    var k := Excess(|all|);
    assert k == 0 && all[k..] == all;
    assert Tx.Reports(all[..k]) == [];
    assert r.reports + [] == r.reports;
  }

  lemma {:induction false} HoldingEach(ops: seq<Tx.Op>, sends: seq<Send>)
    ensures var r := Tx.RunOf(ops);
            Holding(Tx.RunOf(EnqueueEach(ops, sends)), r.pending + EntriesOf(sends), r.reports)
  {
    var r := Tx.RunOf(ops);
    if sends == [] {
      QueueBounded(ops);
      HoldingAtFirst(r, r.pending + EntriesOf(sends));
    } else {
      var before, last := sends[..|sends| - 1], sends[|sends| - 1];
      HoldingEach(ops, before);
      OneMoreOp(EnqueueEach(ops, before), Tx.Enqueue(last.frame, Some(last.ackHash)));
      HoldingOneMore(Tx.RunOf(EnqueueEach(ops, before)), r.pending + EntriesOf(before), r.reports, last.frame,
                     Some(last.ackHash));
      assert r.pending + EntriesOf(sends) ==
             r.pending + EntriesOf(before) + [Tx.Entry(Tx.Truncated(last.frame), Some(last.ackHash))];
    }
  }

  /** What the queue held and what the event adds to it, in order. */
  function Lined(s: Joint, e: Event): seq<Tx.Entry> {
    QueueOf(s).pending + QueuedNow(s, e)
  }

  lemma HoldingOne(s: Joint, frame: seq<u8>, t: Tx.Tag)
    ensures var r := QueueOf(s);
            Holding(Tx.RunOf(s.ops + [Tx.Enqueue(frame, t)]), r.pending + [Tx.Entry(Tx.Truncated(frame), t)], r.reports)
  {
    QueueBounded(s.ops);
    HoldingAtFirst(QueueOf(s), QueueOf(s).pending);
    OneMoreOp(s.ops, Tx.Enqueue(frame, t));
    HoldingOneMore(QueueOf(s), QueueOf(s).pending, QueueOf(s).reports, frame, t);
  }

  lemma HoldingIdle(s: Joint, e: Event)
    requires e.AckReceived?
    ensures Holding(QueueOf(s), Lined(s, e), QueueOf(s).reports)
  {
    QueueBounded(s.ops);
    HoldingAtFirst(QueueOf(s), Lined(s, e));
  }

  lemma HoldingStep(s: Joint, e: Event, s': Joint)
    requires JointStep(s, e, s') && !e.Transmitted?
    ensures Holding(QueueOf(s'), Lined(s, e), QueueOf(s).reports)
  {
    match e
    case NewMessage(_, h, _, frame) => HoldingOne(s, frame, Some(h));
    case OtherFrame(frame) => HoldingOne(s, frame, None);
    case AckReceived(_) => HoldingIdle(s, e);
    case SweepDue(now, answers) => HoldingEach(s.ops, Retried(s.table, now, answers));
  }

  lemma {:induction false} TagsOfTheirReports(entries: seq<Tx.Entry>)
    ensures TagsOfReports(Tx.Reports(entries)) == TagsOf(entries)
  {
    if entries != [] {
      var n := |entries| - 1;
      TagsOfTheirReports(entries[..n]);
      assert Tx.Reports(entries)[..n] == Tx.Reports(entries[..n]);
    }
  }

  /** The event evicts exactly the frames at the front that the queue cannot hold, and keeps the others. */
  lemma StepQueue(s: Joint, e: Event, s': Joint)
    requires JointStep(s, e, s') && !e.Transmitted?
    ensures var all := Lined(s, e);
            var k := Excess(|all|);
            QueueOf(s').pending == all[k..] && Evicted(s, s'.ops) == TagsOf(all[..k])
  {
    HoldingStep(s, e, s');
    HoldingEvicts(QueueOf(s), QueueOf(s'), Lined(s, e));
  }

  lemma HoldingEvicts(r: Tx.Run, r': Tx.Run, all: seq<Tx.Entry>)
    requires Holding(r', all, r.reports)
    ensures |r.reports| <= |r'.reports| && TagsOfReports(r'.reports[|r.reports|..]) == TagsOf(all[..Excess(|all|)])
  {
    var gone := all[..Excess(|all|)];
    assert r'.reports[|r.reports|..] == Tx.Reports(gone);
    TagsOfTheirReports(gone);
  }

  lemma TransmittedEvictsNothing(s: Joint, s': Joint)
    requires JointStep(s, Transmitted, s')
    ensures Evicted(s, s'.ops) == [] && QueueOf(s').pending == Tx.Popped(QueueOf(s).pending)
  {
    OneMoreOp(s.ops, Tx.PopFront);
    assert QueueOf(s').reports[|QueueOf(s).reports|..] == [];
  }

  /**
   * For any state and event: a frame of the send `h` is evicted while another one stays queued exactly when, of the
   * queued frames and those that the event adds, one with that tag is among the ones that do not fit and another
   * one is not.
   */
  lemma EvictedAndStillQueuedIff(s: Joint, e: Event, s': Joint, h: Hash4)
    requires JointStep(s, e, s')
    ensures Some(h) in Evicted(s, s'.ops) && Copies(QueueOf(s').pending, Some(h)) > 0 <==>
            && !e.Transmitted?
            && var all := Lined(s, e);
               var k := Excess(|all|);
               Copies(all[..k], Some(h)) > 0 && Copies(all[k..], Some(h)) > 0
  {
    if e.Transmitted? {
      TransmittedEvictsNothing(s, s');
    } else {
      StepQueue(s, e, s');
      var all := Lined(s, e);
      OccursIff(TagsOf(all[..Excess(|all|)]), Some(h));
    }
  }

  // ── Runs that never double a send ──────────────────────────────────────────

  /** The event queues a frame of `h` while there is another one, queued before or by the same event. */
  predicate Doubles(s: Joint, e: Event, h: Hash4) {
    var added := Copies(QueuedNow(s, e), Some(h));
    added > 0 && Copies(QueueOf(s).pending, Some(h)) + added > 1
  }

  lemma SplitCopies(all: seq<Tx.Entry>, k: nat, tag: Tx.Tag)
    requires k <= |all|
    ensures Copies(all, tag) == Copies(all[..k], tag) + Copies(all[k..], tag)
  {
    CopiesConcat(all[..k], all[k..], tag);
    assert all == all[..k] + all[k..];
  }

  /** What an event queues of `h` is afterwards queued or evicted, with what was queued before it. */
  lemma StepCopies(s: Joint, e: Event, s': Joint, h: Hash4)
    requires JointStep(s, e, s') && !e.Transmitted?
    ensures Copies(QueueOf(s').pending, Some(h)) + Occurs(Evicted(s, s'.ops), Some(h)) ==
            Copies(QueueOf(s).pending, Some(h)) + Copies(QueuedNow(s, e), Some(h))
  {
    StepQueue(s, e, s');
    CopiesConcat(QueueOf(s).pending, QueuedNow(s, e), Some(h));
    SplitCopies(Lined(s, e), Excess(|Lined(s, e)|), Some(h));
  }

  lemma TransmittedCopies(s: Joint, s': Joint, h: Hash4)
    requires JointStep(s, Transmitted, s')
    ensures Copies(QueueOf(s').pending, Some(h)) <= Copies(QueueOf(s).pending, Some(h))
  {
    TransmittedEvictsNothing(s, s');
    if QueueOf(s).pending != [] {
      CopiesOfFirst(QueueOf(s).pending, Some(h));
    }
  }

  /** As long as no event has doubled it, at most one frame of a send is queued. */
  lemma {:induction false} AtMostOneCopy(events: seq<Event>, states: seq<Joint>, i: nat, h: Hash4)
    requires IsJointRun(events, states) && i <= |events|
    requires forall j :: 0 <= j < i ==> !Doubles(states[j], events[j], h)
    ensures Copies(QueueOf(states[i]).pending, Some(h)) <= 1
  {
    if i > 0 {
      AtMostOneCopy(events, states, i - 1, h);
      if events[i - 1].Transmitted? {
        TransmittedCopies(states[i - 1], states[i], h);
      } else {
        StepCopies(states[i - 1], events[i - 1], states[i], h);
      }
    }
  }

  // ── What the eviction does to the table ────────────────────────────────────

  /** How many slots wait for an acknowledgement with that hash. */
  function Tracked(table: seq<Slot>, h: Hash4): nat {
    if table == [] then 0 else (if Matches(table[0], h) then 1 else 0) + Tracked(table[1..], h)
  }

  lemma {:induction false} ResolvedByTracked(table: seq<Slot>, h: Hash4, g: Hash4)
    ensures Tracked(ResolvedBy(table, h), g) == if g == h then SatSub(Tracked(table, g), 1) else Tracked(table, g)
  {
    if table != [] {
      ResolvedByTracked(table[1..], h, g);
      assert ResolvedBy(table, h)[1..] == if Matches(table[0], h) then table[1..] else ResolvedBy(table[1..], h);
    }
  }

  /** Each eviction that names `g` clears one of its slots, while there is one, and no other slot. */
  lemma {:induction false} ResolveAllTracked(table: seq<Slot>, tags: seq<Tx.Tag>, g: Hash4)
    ensures Tracked(ResolveAll(table, tags), g) == SatSub(Tracked(table, g), Occurs(tags, Some(g)))
  {
    if tags != [] {
      var before, tag := tags[..|tags| - 1], tags[|tags| - 1];
      ResolveAllTracked(table, before, g);
      if tag.Some? {
        ResolvedByTracked(ResolveAll(table, before), tag.value, g);
      }
    }
  }

  /** The table as the evictions of the event find it. */
  function Found(s: Joint, e: Event): seq<Slot> {
    if e.SweepDue? && |e.answers| == |s.table| then Swept(s.table, e.now, e.answers) else s.table
  }

  /**
   * Over any joint run in which no event so far has doubled the send: an eviction that names it clears one of the
   * slots that wait for it, if there is one, and leaves no frame of it queued. The send that is reported undelivered
   * is at its end.
   */
  lemma EvictionEndsSend(events: seq<Event>, states: seq<Joint>, i: nat, h: Hash4)
    requires IsJointRun(events, states) && i < |events|
    requires forall j :: 0 <= j <= i ==> !Doubles(states[j], events[j], h)
    requires Some(h) in Evicted(states[i], states[i + 1].ops)
    ensures Copies(QueueOf(states[i + 1]).pending, Some(h)) == 0
    ensures var s, e, evicted := states[i], events[i], Evicted(states[i], states[i + 1].ops);
            && Tracked(ResolveAll(Found(s, e), evicted), h) == SatSub(Tracked(Found(s, e), h), 1)
            && (!e.NewMessage? ==> states[i + 1].table == ResolveAll(Found(s, e), evicted))
  {
    var s, e, s' := states[i], events[i], states[i + 1];
    assert JointStep(s, e, s');
    AtMostOneCopy(events, states, i, h);
    if e.Transmitted? {
      TransmittedEvictsNothing(s, s');
    } else {
      StepCopies(s, e, s', h);
    }
    OccursIff(Evicted(s, s'.ops), Some(h));
    ResolveAllTracked(Found(s, e), Evicted(s, s'.ops), h);
    if e.AckReceived? {
      NothingEvictedByAck(s, e, s');
    }
  }

  lemma NothingEvictedByAck(s: Joint, e: Event, s': Joint)
    requires JointStep(s, e, s') && e.AckReceived?
    ensures Evicted(s, s'.ops) == []
  {
  }

  lemma {:induction false} TrackedUpdate(table: seq<Slot>, i: nat, x: Slot, g: Hash4)
    requires i < |table|
    ensures Tracked(table[i := x], g) ==
            Tracked(table, g) - (if Matches(table[i], g) then 1 else 0) + if Matches(x, g) then 1 else 0
  {
    if i > 0 {
      TrackedUpdate(table[1..], i - 1, x, g);
      assert table[i := x][1..] == table[1..][i - 1 := x];
    } else {
      assert table[i := x][1..] == table[1..];
    }
  }

  lemma {:induction false} FreeStaysFree(table: seq<Slot>, tags: seq<Tx.Tag>, i: nat)
    requires i < |table| && table[i].None?
    ensures ResolveAll(table, tags)[i].None?
  {
    if tags != [] {
      FreeStaysFree(table, tags[..|tags| - 1], i);
      if tags[|tags| - 1].Some? {
        FreeNotFilled(ResolveAll(table, tags[..|tags| - 1]), tags[|tags| - 1].value, i);
      }
    }
  }

  lemma {:induction false} FreeNotFilled(table: seq<Slot>, h: Hash4, i: nat)
    requires i < |table| && table[i].None?
    ensures ResolvedBy(table, h)[i].None?
  {
    if i > 0 {
      FreeNotFilled(table[1..], h, i - 1);
    }
  }

  /** How many of the queued frames and of those that the event adds are evicted for `g`: those beyond four. */
  function GoneFor(s: Joint, e: Event, g: Hash4): nat {
    var all := QueueOf(s).pending + QueuedNow(s, e);
    Copies(all[..SatSub(|all|, 4)], Some(g))
  }

  /**
   * How many slots wait for `g` after any event: an acknowledgement and each eviction of `g` clear one, a sweep
   * clears those it gives up, a new message takes one, and nothing else changes them.
   */
  lemma StepTracked(s: Joint, e: Event, s': Joint, g: Hash4)
    requires JointStep(s, e, s')
    ensures e.Transmitted? ==> s'.table == s.table
    ensures e.AckReceived? ==>
              Tracked(s'.table, g) == SatSub(Tracked(s.table, g), if e.ackHash == g then 1 else 0)
    ensures e.OtherFrame? ==> Tracked(s'.table, g) == SatSub(Tracked(s.table, g), GoneFor(s, e, g))
    ensures e.SweepDue? ==>
              && |e.answers| == |s.table|
              && Tracked(s'.table, g) == SatSub(Tracked(Swept(s.table, e.now, e.answers), g), GoneFor(s, e, g))
    ensures e.NewMessage? ==>
              var most := SatSub(Tracked(s.table, g), GoneFor(s, e, g)) + if e.ackHash == g then 1 else 0;
              && most - 1 <= Tracked(s'.table, g) <= most
              && ((exists i :: 0 <= i < |s.table| && s.table[i].None?) ==> Tracked(s'.table, g) == most)
  {
    if e.AckReceived? {
      ResolvedByTracked(s.table, e.ackHash, g);
    } else if !e.Transmitted? {
      StepQueue(s, e, s');
      ResolveAllTracked(Found(s, e), Evicted(s, s'.ops), g);
      if e.NewMessage? {
        InsertTracked(s, e, s', g);
      }
    }
  }

  lemma InsertTracked(s: Joint, e: Event, s': Joint, g: Hash4)
    requires JointStep(s, e, s') && e.NewMessage?
    ensures var found := ResolveAll(s.table, Evicted(s, s'.ops));
            var most := Tracked(found, g) + if e.ackHash == g then 1 else 0;
            && most - 1 <= Tracked(s'.table, g) <= most
            && ((exists i :: 0 <= i < |s.table| && s.table[i].None?) ==> Tracked(s'.table, g) == most)
  {
    var found := ResolveAll(s.table, Evicted(s, s'.ops));
    var send := NewSend(e.ackHash, e.kind, e.now, e.frame);
    var dropped :| Inserts(found, send, s'.table, dropped);
    var i: nat :| i < |found| && s'.table == found[i := Some(send)] && (Full(found) || found[i].None?);
    TrackedUpdate(found, i, Some(send), g);
    if j :| 0 <= j < |s.table| && s.table[j].None? {
      FreeStaysFree(s.table, Evicted(s, s'.ops), j);
    }
  }

  // ── And a doubled one need not be ──────────────────────────────────────────

  const OTHER := Tx.Entry([], None)

  /** The queue after `n` more frames that are no sends, none being transmitted meanwhile. */
  function AfterOthers(pending: seq<Tx.Entry>, n: nat): seq<Tx.Entry>
    decreases n
  {
    if n == 0 then pending else AfterOthers(Tx.Enqueued(pending, OTHER), n - 1)
  }

  /** The next frame to be queued evicts one of `h`. */
  predicate EvictsNext(pending: seq<Tx.Entry>, h: Hash4) {
    |pending| >= Tx.TX_QUEUE_SLOTS && pending[0].tag == Some(h)
  }

  /** That is what a step of the run with such a frame does to the queue. */
  lemma OtherFrameOnQueue(s: Joint, s': Joint, h: Hash4)
    requires JointStep(s, OtherFrame([]), s')
    ensures QueueOf(s').pending == Tx.Enqueued(QueueOf(s).pending, OTHER)
    ensures Some(h) in Evicted(s, s'.ops) <==> EvictsNext(QueueOf(s).pending, h)
  {
    OneMoreOp(s.ops, Tx.Enqueue([], None));
    assert Tx.Truncated([]) == [];
    QueueBounded(s.ops);
    if |QueueOf(s).pending| < Tx.TX_QUEUE_SLOTS {
      NothingEvicted(s, [], None);
    } else {
      OldestEvicted(s, [], None);
    }
  }

  lemma OtherAddsNone(pending: seq<Tx.Entry>, h: Hash4)
    ensures Copies(Tx.Enqueued(pending, OTHER), Some(h)) ==
            Copies(pending, Some(h)) - if EvictsNext(pending, h) then 1 else 0
  {
    CopiesOfOne(OTHER, Some(h));
    if |pending| >= Tx.TX_QUEUE_SLOTS {
      CopiesOfFirst(pending, Some(h));
      CopiesConcat(pending[1..], [OTHER], Some(h));
    } else {
      CopiesConcat(pending, [OTHER], Some(h));
    }
  }

  lemma {:induction false} OthersAddNone(pending: seq<Tx.Entry>, n: nat, h: Hash4)
    ensures Copies(AfterOthers(pending, n), Some(h)) <= Copies(pending, Some(h))
    decreases n
  {
    if n > 0 {
      OtherAddsNone(pending, h);
      OthersAddNone(Tx.Enqueued(pending, OTHER), n - 1, h);
    }
  }

  /** How many frames are queued in front of the first one of `h`. */
  function Distance(pending: seq<Tx.Entry>, h: Hash4): nat {
    if pending == [] || pending[0].tag == Some(h) then 0 else 1 + Distance(pending[1..], h)
  }

  lemma {:induction false} DistanceOfLonger(pending: seq<Tx.Entry>, e: Tx.Entry, h: Hash4)
    requires Copies(pending, Some(h)) > 0
    ensures Distance(pending + [e], h) == Distance(pending, h)
  {
    if pending != [] && pending[0].tag != Some(h) {
      CopiesOfFirst(pending, Some(h));
      DistanceOfLonger(pending[1..], e, h);
      assert (pending + [e])[1..] == pending[1..] + [e];
    }
  }

  /** While nothing of `h` is evicted, its first frame comes closer to the front, or the queue fuller. */
  lemma ComesCloser(pending: seq<Tx.Entry>, h: Hash4)
    requires Copies(pending, Some(h)) > 0 && |pending| <= Tx.TX_QUEUE_SLOTS && !EvictsNext(pending, h)
    ensures var after := Tx.Enqueued(pending, OTHER);
            |after| <= Tx.TX_QUEUE_SLOTS && Distance(after, h) - |after| < Distance(pending, h) - |pending|
  {
    if |pending| >= Tx.TX_QUEUE_SLOTS {
      CopiesOfFirst(pending, Some(h));
      DistanceOfLonger(pending[1..], OTHER, h);
    } else {
      DistanceOfLonger(pending, OTHER, h);
    }
  }

  /** With two frames of `h` queued, other frames alone evict one of them and leave one queued. */
  lemma {:induction false} DoubledIsGivenUp(pending: seq<Tx.Entry>, h: Hash4) returns (n: nat)
    requires Copies(pending, Some(h)) > 1 && |pending| <= Tx.TX_QUEUE_SLOTS
    ensures var before := AfterOthers(pending, n);
            EvictsNext(before, h) && Copies(Tx.Enqueued(before, OTHER), Some(h)) > 0
    decreases Tx.TX_QUEUE_SLOTS - |pending| + Distance(pending, h)
  {
    OtherAddsNone(pending, h);
    if EvictsNext(pending, h) {
      n := 0;
    } else {
      ComesCloser(pending, h);
      var m := DoubledIsGivenUp(Tx.Enqueued(pending, OTHER), h);
      n := m + 1;
    }
  }

  /**
   * So, exactly: however many other frames are still to come, an eviction that names the send leaves none of it
   * queued if and only if it is queued at most once now.
   */
  lemma EvictionsSafeIff(pending: seq<Tx.Entry>, h: Hash4)
    requires |pending| <= Tx.TX_QUEUE_SLOTS
    ensures (forall n: nat :: EvictsNext(AfterOthers(pending, n), h) ==>
                                Copies(Tx.Enqueued(AfterOthers(pending, n), OTHER), Some(h)) == 0) <==>
            Copies(pending, Some(h)) <= 1
  {
    if Copies(pending, Some(h)) <= 1 {
      forall n: nat | EvictsNext(AfterOthers(pending, n), h)
        ensures Copies(Tx.Enqueued(AfterOthers(pending, n), OTHER), Some(h)) == 0
      {
        OthersAddNone(pending, n, h);
        OtherAddsNone(AfterOthers(pending, n), h);
      }
    } else {
      var n := DoubledIsGivenUp(pending, h);
    }
  }

  // ── A send given up while a copy of it is still queued ─────────────────────

  lemma {:induction false} OnlyOneRetried(table: seq<Slot>, now: nat, answers: seq<bool>, i: nat)
    requires |answers| == |table| && i < |table| && Retries(table[i], now, answers[i])
    requires forall j :: 0 <= j < |table| && j != i ==> !Retries(table[j], now, answers[j])
    ensures Retried(table, now, answers) == [table[i].value]
  {
    var n := |table| - 1;
    if i < n {
      OnlyOneRetried(table[..n], now, answers[..n], i);
    } else {
      NoneRetried(table[..n], now, answers[..n]);
    }
  }

  lemma {:induction false} NoneRetried(table: seq<Slot>, now: nat, answers: seq<bool>)
    requires |answers| == |table|
    requires forall j :: 0 <= j < |table| ==> !Retries(table[j], now, answers[j])
    ensures Retried(table, now, answers) == []
  {
    if table != [] {
      NoneRetried(table[..|table| - 1], now, answers[..|table| - 1]);
    }
  }

  /**
   * The queue is full and its oldest frame is the first copy of a send whose deadline passes: the retry evicts that
   * copy, and the eviction resolves the send, so it is reported undelivered while its retry waits to be transmitted.
   */
  lemma RetryEvictsItself(s: Joint, now: u64, answers: seq<bool>, s': Joint, i: nat)
    requires JointStep(s, SweepDue(now, answers), s') && |QueueOf(s).pending| == Tx.TX_QUEUE_SLOTS
    requires i < |s.table| && Retries(s.table[i], now, answers[i])
    requires QueueOf(s).pending[0].tag == Some(s.table[i].value.ackHash)
    requires forall j :: 0 <= j < |s.table| && j != i ==>
               !Retries(s.table[j], now, answers[j]) && !Matches(s.table[j], s.table[i].value.ackHash)
    ensures var h := s.table[i].value.ackHash;
            && (forall j :: 0 <= j < |s'.table| ==> !Matches(s'.table[j], h))
            && Copies(QueueOf(s').pending, Some(h)) > 0
  {
    var send := s.table[i].value;
    var h := send.ackHash;
    var op := Tx.Enqueue(send.frame, Some(h));
    OnlyOneRetried(s.table, now, answers, i);
    var again := [send];
    assert again[..0] == [] && EnqueueEach(s.ops, []) == s.ops;
    assert EnqueueEach(s.ops, again) == s.ops + [op];
    OldestEvicted(s, send.frame, Some(h));
    assert s'.table == ResolveAll(Swept(s.table, now, answers), [Some(h)]);
    SweptThenResolved(s.table, now, answers, i, h);
    var e := Tx.Entry(Tx.Truncated(send.frame), Some(h));
    assert QueueOf(s').pending == QueueOf(s).pending[1..] + [e];
    CopiesConcat(QueueOf(s).pending[1..], [e], Some(h));
    CopiesOfOne(e, Some(h));
  }

  lemma SweptThenResolved(table: seq<Slot>, now: nat, answers: seq<bool>, i: nat, h: Hash4)
    requires |answers| == |table| && i < |table| && Retries(table[i], now, answers[i]) && Matches(table[i], h)
    requires forall j :: 0 <= j < |table| && j != i ==> !Matches(table[j], h)
    ensures var after := ResolveAll(Swept(table, now, answers), [Some(h)]);
            forall j :: 0 <= j < |after| ==> !Matches(after[j], h)
  {
    var swept := Swept(table, now, answers);
    assert IsFirstMatch(swept, i, h);
    ResolvesToResolvedBy(swept, h, i);
    assert [Some(h)][..0] == [];
    assert ResolveAll(swept, [Some(h)]) == ResolvedBy(swept, h);
  }

  /** A frame that finds no free slot evicts the oldest. */
  lemma OldestEvicted(s: Joint, frame: seq<u8>, t: Tx.Tag)
    requires |QueueOf(s).pending| == Tx.TX_QUEUE_SLOTS
    ensures Evicted(s, s.ops + [Tx.Enqueue(frame, t)]) == [QueueOf(s).pending[0].tag]
    ensures Tx.RunOf(s.ops + [Tx.Enqueue(frame, t)]).pending ==
            QueueOf(s).pending[1..] + [Tx.Entry(Tx.Truncated(frame), t)]
  {
    OneMoreOp(s.ops, Tx.Enqueue(frame, t));
    var before, report := QueueOf(s).reports, Tx.ReportOf(QueueOf(s).pending[0]);
    assert (before + [report])[|before|..] == [report];
    TagOfOneReport(report);
  }

  lemma TagOfOneReport(report: Tx.Report)
    ensures TagsOfReports([report]) == [report.tag]
  {
    assert [report][..0] == [];
  }

  /** A frame that finds a free slot evicts nothing. */
  lemma NothingEvicted(s: Joint, frame: seq<u8>, t: Tx.Tag)
    requires |QueueOf(s).pending| < Tx.TX_QUEUE_SLOTS
    ensures Evicted(s, s.ops + [Tx.Enqueue(frame, t)]) == []
    ensures Tx.RunOf(s.ops + [Tx.Enqueue(frame, t)]).pending == QueueOf(s).pending + [Tx.Entry(Tx.Truncated(frame), t)]
  {
    OneMoreOp(s.ops, Tx.Enqueue(frame, t));
    assert QueueOf(s).reports + [] == QueueOf(s).reports;
  }

  lemma OtherFrameStep(s: Joint, frame: seq<u8>) returns (s': Joint)
    requires 0 < |QueueOf(s).pending| < Tx.TX_QUEUE_SLOTS
    ensures JointStep(s, OtherFrame(frame), s') && s'.table == s.table
    ensures |QueueOf(s').pending| == |QueueOf(s).pending| + 1
    ensures QueueOf(s').pending[0] == QueueOf(s).pending[0]
  {
    NothingEvicted(s, frame, None);
    s' := Joint(s.ops + [Tx.Enqueue(frame, None)], s.table, s.sent, s.retried);
  }

  lemma FirstMessageStep(h: Hash4, kind: Kind, frame: seq<u8>) returns (s': Joint)
    ensures JointStep(Start(), NewMessage(0, h, kind, frame), s')
    ensures s'.table == Start().table[0 := Some(NewSend(h, kind, 0, frame))]
    ensures |QueueOf(s').pending| == 1 && QueueOf(s').pending[0].tag == Some(h)
  {
    var s, send := Start(), NewSend(h, kind, 0, frame);
    var op := Tx.Enqueue(frame, Some(h));
    NothingEvicted(s, frame, Some(h));
    s' := Joint(s.ops + [op], s.table[0 := Some(send)], s.sent + [h], s.retried);
    assert ResolveAll(s.table, []) == s.table;
    assert !Full(s.table) by {
      assert s.table[0].None?;
    }
    assert IsFirstFree(s.table, 0);
    assert Inserts(s.table, send, s'.table, None);
  }

  /** So it comes to pass when one message and three other frames are queued and none is transmitted for 30 s. */
  lemma RetryEvictsItselfOnRun(h: Hash4, kind: Kind, frame: seq<u8>) returns (events: seq<Event>, states: seq<Joint>)
    ensures |events| == 5 && events[0] == NewMessage(0, h, kind, frame) && IsJointRun(events, states)
    ensures var s := states[5];
            && (forall j :: 0 <= j < |s.table| ==> !Matches(s.table[j], h))
            && Copies(QueueOf(s).pending, Some(h)) > 0
  {
    var answers := seq(MAX_OUTSTANDING_SENDS, _ => true);
    var before, so, s4 := QueueFilled(h, kind, frame);
    var s5 := SweepStep(s4, 30_000, answers);
    OnlySendRetried(s4, s5, h, kind, frame, answers);
    events, states := OneMoreStep(before, so, s4, SweepDue(30_000, answers), s5);
  }

  lemma QueueFilled(h: Hash4, kind: Kind, frame: seq<u8>) returns (events: seq<Event>, states: seq<Joint>, s: Joint)
    ensures |events| == 4 && events[0] == NewMessage(0, h, kind, frame) && IsJointRun(events, states) && states[4] == s
    ensures s.table == Start().table[0 := Some(NewSend(h, kind, 0, frame))]
    ensures |QueueOf(s).pending| == Tx.TX_QUEUE_SLOTS && QueueOf(s).pending[0].tag == Some(h)
  {
    events, states := [], [Start()];
    var s1 := FirstMessageStep(h, kind, frame);
    events, states := OneMoreStep(events, states, Start(), NewMessage(0, h, kind, frame), s1);
    s := s1;
    while |events| < 4
      invariant 1 <= |events| <= 4 && events[0] == NewMessage(0, h, kind, frame)
      invariant IsJointRun(events, states) && states[|events|] == s && s.table == s1.table
      invariant |QueueOf(s).pending| == |events| && QueueOf(s).pending[0].tag == Some(h)
    {
      var s' := OtherFrameStep(s, frame);
      events, states := OneMoreStep(events, states, s, OtherFrame(frame), s');
      s := s';
    }
  }

  lemma OneMoreStep(events: seq<Event>, states: seq<Joint>, last: Joint, e: Event, s: Joint)
    returns (events': seq<Event>, states': seq<Joint>)
    requires IsJointRun(events, states) && states[|events|] == last && JointStep(last, e, s)
    ensures events' == events + [e] && states' == states + [s] && IsJointRun(events', states')
  {
    events', states' := events + [e], states + [s];
    forall i | 0 <= i < |events'|
      ensures JointStep(states'[i], events'[i], states'[i + 1])
    {
      if i < |events| {
        assert states'[i] == states[i] && events'[i] == events[i] && states'[i + 1] == states[i + 1];
      } else {
        assert states'[i] == last && events'[i] == e && states'[i + 1] == s;
      }
    }
  }

  lemma OnlySendRetried(s: Joint, s': Joint, h: Hash4, kind: Kind, frame: seq<u8>, answers: seq<bool>)
    requires s.table == Start().table[0 := Some(NewSend(h, kind, 0, frame))]
    requires answers == seq(MAX_OUTSTANDING_SENDS, _ => true)
    requires |QueueOf(s).pending| == Tx.TX_QUEUE_SLOTS && QueueOf(s).pending[0].tag == Some(h)
    requires JointStep(s, SweepDue(30_000, answers), s')
    ensures forall j :: 0 <= j < |s'.table| ==> !Matches(s'.table[j], h)
    ensures Copies(QueueOf(s').pending, Some(h)) > 0
  {
    RetryEvictsItself(s, 30_000, answers, s', 0);
  }

  lemma SweepStep(s: Joint, now: u64, answers: seq<bool>) returns (s': Joint)
    requires |answers| == |s.table|
    ensures JointStep(s, SweepDue(now, answers), s')
  {
    var again := Retried(s.table, now, answers);
    var ops' := EnqueueEach(s.ops, again);
    s' := Joint(ops', ResolveAll(Swept(s.table, now, answers), Evicted(s, ops')), s.sent, s.retried + HashesOf(again));
  }
}
