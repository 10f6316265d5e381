/** The four-slot transmit queue: first in first out, dropping and reporting the oldest frame when full. */
module Tx {
  import opened Words
  import opened Occurrences

  const TX_QUEUE_SLOTS := 4

  type Tag = Option<Hash4>

  /** One pending frame, at most `FRAME_BUF` bytes of it, and the ACK hash it is expected to earn. */
  datatype Entry = Entry(frame: seq<u8>, tag: Tag)

  /** The length and tag of an evicted frame, as `enqueue` reports it. */
  datatype Report = Report(len: nat, tag: Tag)

  function Truncated(frame: seq<u8>): seq<u8> {
    frame[..Min(|frame|, FRAME_BUF)]
  }

  function ReportOf(e: Entry): Report {
    Report(|e.frame|, e.tag)
  }

  /** A full queue gives up its oldest entry to make room, and says which. */
  function Enqueued(pending: seq<Entry>, e: Entry): seq<Entry> {
    (if |pending| >= TX_QUEUE_SLOTS then pending[1..] else pending) + [e]
  }

  function Reported(pending: seq<Entry>): Option<Report> {
    if |pending| >= TX_QUEUE_SLOTS then Some(ReportOf(pending[0])) else None
  }

  function Popped(pending: seq<Entry>): seq<Entry> {
    if pending == [] then [] else pending[1..]
  }

  /** How far slot `i` lies behind the head of the queue. */
  function Position(head: nat, i: nat): nat
    requires head < TX_QUEUE_SLOTS && i < TX_QUEUE_SLOTS
  {
    if head <= i then i - head else i + TX_QUEUE_SLOTS - head
  }

  class TxQueue {
    /** Each buffer keeps its 255 bytes; only the first `lens[i]` of them are meaningful. */
    const bufs: array<seq<u8>>
    const lens: array<nat>
    const tags: array<Tag>
    var head: nat
    var count: nat
    ghost var pending: seq<Entry>

    ghost predicate Valid()
      reads this, bufs, lens, tags
    {
      && bufs.Length == lens.Length == tags.Length == TX_QUEUE_SLOTS
      && head < TX_QUEUE_SLOTS && count <= TX_QUEUE_SLOTS && |pending| == count
      && (forall i :: 0 <= i < TX_QUEUE_SLOTS ==> |bufs[i]| == FRAME_BUF && lens[i] <= FRAME_BUF)
      && forall i :: 0 <= i < TX_QUEUE_SLOTS && Position(head, i) < count ==>
           SlotHolds(i, pending[Position(head, i)])
    }

    ghost predicate SlotHolds(i: nat, e: Entry)
      requires i < TX_QUEUE_SLOTS && bufs.Length == lens.Length == tags.Length == TX_QUEUE_SLOTS
      reads bufs, lens, tags
    {
      lens[i] <= |bufs[i]| && e == Entry(bufs[i][..lens[i]], tags[i])
    }

    constructor ()
      ensures Valid() && fresh(bufs) && fresh(lens) && fresh(tags)
      ensures pending == []
    {
      bufs := new seq<u8>[TX_QUEUE_SLOTS](_ => seq(FRAME_BUF, _ => 0));
      lens := new nat[TX_QUEUE_SLOTS](_ => 0);
      tags := new Tag[TX_QUEUE_SLOTS](_ => None);
      head, count, pending := 0, 0, [];
    }

    method WriteSlot(idx: nat, frame: seq<u8>, tag: Tag)
      requires bufs.Length == lens.Length == tags.Length == TX_QUEUE_SLOTS
      requires idx < TX_QUEUE_SLOTS && |bufs[idx]| == FRAME_BUF
      modifies bufs, lens, tags
      ensures |bufs[idx]| == FRAME_BUF && lens[idx] <= FRAME_BUF
      ensures SlotHolds(idx, Entry(Truncated(frame), tag))
      ensures forall i :: 0 <= i < TX_QUEUE_SLOTS && i != idx ==>
                bufs[i] == old(bufs[i]) && lens[i] == old(lens[i]) && tags[i] == old(tags[i])
    {
      var n := Min(|frame|, FRAME_BUF);
      bufs[idx] := frame[..n] + bufs[idx][n..];
      lens[idx] := n;
      tags[idx] := tag;
    }

    method Enqueue(frame: seq<u8>, tag: Tag) returns (dropped: Option<Report>)
      requires Valid()
      modifies this, bufs, lens, tags
      ensures Valid()
      ensures pending == Enqueued(old(pending), Entry(Truncated(frame), tag))
      ensures dropped == Reported(old(pending))
      // The newest entry is the frame itself, up to 255 bytes of it; the older ones move up, and only a fifth is lost.
      ensures 1 <= |pending| <= 4 && pending[|pending| - 1].tag == tag
      ensures pending[|pending| - 1].frame <= frame
      ensures |pending[|pending| - 1].frame| == if |frame| <= 255 then |frame| else 255
      ensures |old(pending)| < 4 ==> dropped == None && pending[..|pending| - 1] == old(pending)
      ensures |old(pending)| >= 4 ==>
                && pending[..|pending| - 1] == old(pending)[1..]
                && dropped.Some? && dropped.value.len == |old(pending)[0].frame|
                && dropped.value.tag == old(pending)[0].tag
    {
      var idx: nat;
      if count == TX_QUEUE_SLOTS {
        idx := head;
        assert Position(head, idx) == 0;
        dropped := Some(Report(lens[idx], tags[idx]));
        head := (head + 1) % TX_QUEUE_SLOTS;
        pending := pending[1..];
      } else {
        idx := (head + count) % TX_QUEUE_SLOTS;
        count := count + 1;
        dropped := None;
      }
      assert Position(head, idx) == count - 1;
      WriteSlot(idx, frame, tag);
      pending := pending + [Entry(Truncated(frame), tag)];
    }

    method Peek(out: array<u8>) returns (n: nat)
      requires Valid()
      modifies out
      ensures pending == [] ==> n == 0
      ensures pending != [] ==> n == Min(|pending[0].frame|, out.Length) && out[..n] == pending[0].frame[..n]
      ensures n <= out.Length && out[n..] == old(out[n..])
    {
      if count == 0 {
        return 0;
      }
      var idx := head;
      assert Position(head, idx) == 0;
      n := Min(lens[idx], out.Length);
      for i := 0 to n
        invariant out[..i] == bufs[idx][..i]
        invariant out[n..] == old(out[n..])
      {
        out[i] := bufs[idx][i];
      }
    }

    method PopFront()
      requires Valid()
      modifies this
      ensures Valid()
      ensures pending == Popped(old(pending))
    {
      if count == 0 {
        return;
      }
      head := (head + 1) % TX_QUEUE_SLOTS;
      count := count - 1;
      pending := pending[1..];
      forall i | 0 <= i < TX_QUEUE_SLOTS && Position(head, i) < count
        ensures SlotHolds(i, pending[Position(head, i)])
      {
        assert Position(old(head), i) == Position(head, i) + 1;
      }
    }

    method HasPending() returns (some: bool)
      requires Valid()
      ensures some <==> pending != []
    {
      some := count > 0;
    }
  }

  // ── Whole runs ─────────────────────────────────────────────────────────────

  datatype Op = Enqueue(frame: seq<u8>, tag: Tag) | PopFront

  /** What an observer of a run has seen: everything enqueued, every popped frame, every reported eviction. */
  datatype Run = Run(pending: seq<Entry>, enqueued: seq<Entry>, popped: seq<Entry>, reports: seq<Report>)

  /** One call, as the contracts of `TxQueue` state it. */
  function Step(r: Run, op: Op): Run {
    match op
    case Enqueue(frame, tag) =>
      var e := Entry(Truncated(frame), tag);
      var reported := Reported(r.pending);
      Run(Enqueued(r.pending, e), r.enqueued + [e], r.popped,
          r.reports + if reported.Some? then [reported.value] else [])
    case PopFront =>
      Run(Popped(r.pending), r.enqueued, r.popped + if r.pending == [] then [] else [r.pending[0]], r.reports)
  }

  function RunOf(ops: seq<Op>): Run {
    if ops == [] then Run([], [], [], []) else Step(RunOf(ops[..|ops| - 1]), ops[|ops| - 1])
  }

  /** What became of an enqueued frame that is no longer pending. */
  datatype Fate = Sent | Evicted

  /** Those of the first `|fates|` entries that met `fate`, in order. */
  function Select(entries: seq<Entry>, fates: seq<Fate>, fate: Fate): seq<Entry>
    requires |fates| <= |entries|
  {
    if fates == [] then []
    else
      var n := |fates| - 1;
      Select(entries, fates[..n], fate) + if fates[n] == fate then [entries[n]] else []
  }

  function Reports(entries: seq<Entry>): (rs: seq<Report>)
    ensures |rs| == |entries| && forall i :: 0 <= i < |rs| ==> rs[i] == ReportOf(entries[i])
  {
    seq(|entries|, i requires 0 <= i < |entries| => ReportOf(entries[i]))
  }

  /** Frames leave in the order they came, popped to be sent or evicted and reported; the rest is still pending. */
  ghost predicate Accounts(r: Run, fates: seq<Fate>) {
    && |fates| + |r.pending| == |r.enqueued|
    && r.pending == r.enqueued[|fates|..]
    && r.popped == Select(r.enqueued, fates, Sent)
    && r.reports == Reports(Select(r.enqueued, fates, Evicted))
    && |r.pending| <= TX_QUEUE_SLOTS
  }

  lemma {:induction false} SelectIgnoresLater(entries: seq<Entry>, more: seq<Entry>, fates: seq<Fate>, fate: Fate)
    requires |fates| <= |entries|
    ensures Select(entries + more, fates, fate) == Select(entries, fates, fate)
  {
    if fates != [] {
      SelectIgnoresLater(entries, more, fates[..|fates| - 1], fate);
    }
  }

  /** Over any run every enqueued frame has exactly one fate, and the observer can tell which. */
  lemma {:induction false} EveryFrameAccounted(ops: seq<Op>) returns (fates: seq<Fate>)
    ensures Accounts(RunOf(ops), fates)
  {
    if ops == [] {
      return [];
    }
    var before := RunOf(ops[..|ops| - 1]);
    fates := EveryFrameAccounted(ops[..|ops| - 1]);
    var after := RunOf(ops);
    match ops[|ops| - 1]
    case Enqueue(frame, tag) =>
      var e := Entry(Truncated(frame), tag);
      SelectIgnoresLater(before.enqueued, [e], fates, Sent);
      SelectIgnoresLater(before.enqueued, [e], fates, Evicted);
      if |before.pending| >= TX_QUEUE_SLOTS {
        LeaveFront(after.enqueued, fates, Evicted);
        fates := fates + [Evicted];
      }
    case PopFront =>
      if before.pending != [] {
        LeaveFront(after.enqueued, fates, Sent);
        fates := fates + [Sent];
      }
  }

  lemma LeaveFront(entries: seq<Entry>, fates: seq<Fate>, fate: Fate)
    requires |fates| < |entries|
    ensures Select(entries, fates + [fate], fate) == Select(entries, fates, fate) + [entries[|fates|]]
    ensures forall other :: other != fate ==> Select(entries, fates + [fate], other) == Select(entries, fates, other)
    ensures Reports(Select(entries, fates + [fate], fate)) ==
            Reports(Select(entries, fates, fate)) + [ReportOf(entries[|fates|])]
  {
    assert (fates + [fate])[..|fates|] == fates;
  }

  /** What a run was given to send, in order. */
  function Offered(ops: seq<Op>): seq<Op> {
    if ops == [] then []
    else
      var last := ops[|ops| - 1];
      Offered(ops[..|ops| - 1]) + if last.Enqueue? then [last] else []
  }

  /** What the run calls enqueued is what it was given: every frame of up to 255 bytes whole, with its own tag. */
  lemma {:induction false} EnqueuedAreTheFrames(ops: seq<Op>)
    ensures var enqueued, offered := RunOf(ops).enqueued, Offered(ops);
            && |enqueued| == |offered|
            && forall i :: 0 <= i < |offered| ==>
                 && offered[i].Enqueue? && enqueued[i].tag == offered[i].tag
                 && enqueued[i].frame <= offered[i].frame
                 && (|offered[i].frame| <= 255 ==> enqueued[i].frame == offered[i].frame)
                 && (|offered[i].frame| > 255 ==> |enqueued[i].frame| == 255)
  {
    if ops != [] {
      EnqueuedAreTheFrames(ops[..|ops| - 1]);
    }
  }

  /** Nothing is lost or duplicated: enqueued frames are, as often, the popped, the evicted and the pending ones. */
  lemma Conservation(ops: seq<Op>) returns (evicted: seq<Entry>)
    ensures var r := RunOf(ops);
            && r.reports == Reports(evicted)
            && forall e :: Occurs(r.enqueued, e) == Occurs(r.popped, e) + Occurs(evicted, e) + Occurs(r.pending, e)
  {
    var r := RunOf(ops);
    var fates := EveryFrameAccounted(ops);
    evicted := Select(r.enqueued, fates, Evicted);
    assert r.enqueued == r.enqueued[..|fates|] + r.enqueued[|fates|..];
    forall e
      ensures Occurs(r.enqueued, e) == Occurs(r.popped, e) + Occurs(evicted, e) + Occurs(r.pending, e)
    {
      OccursConcat(r.enqueued[..|fates|], r.enqueued[|fates|..], e);
      SelectPartitions(r.enqueued, fates, e);
    }
  }

  lemma {:induction false} SelectPartitions(entries: seq<Entry>, fates: seq<Fate>, e: Entry)
    requires |fates| <= |entries|
    ensures Occurs(entries[..|fates|], e) ==
            Occurs(Select(entries, fates, Sent), e) + Occurs(Select(entries, fates, Evicted), e)
  {
    if fates != [] {
      var n := |fates| - 1;
      SelectPartitions(entries, fates[..n], e);
      assert entries[..n + 1][..n] == entries[..n];
      SelectLast(entries, fates, Sent, e);
      SelectLast(entries, fates, Evicted, e);
    }
  }

  lemma SelectLast(entries: seq<Entry>, fates: seq<Fate>, fate: Fate, e: Entry)
    requires 0 < |fates| <= |entries|
    ensures var n := |fates| - 1;
            Occurs(Select(entries, fates, fate), e) ==
            Occurs(Select(entries, fates[..n], fate), e) + if fates[n] == fate && entries[n] == e then 1 else 0
  {
    var n := |fates| - 1;
    var last := if fates[n] == fate then [entries[n]] else [];
    OccursConcat(Select(entries, fates[..n], fate), last, e);
    OccursOne(entries[n], e);
  }
}
