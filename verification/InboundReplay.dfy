/**
 * The per-contact replay guard: a high-water mark and a ring of 16 content fingerprints, persisted across reboots,
 * and exactly which frames it accepts.
 */
module InboundReplay {
  import opened Words
  import opened Bytes
  import opened Ring

  const REPLAY_RING_LEN := 16
  const STATE_LEN := 70

  datatype Dm = Dm(ts: u32, fingerprint: Hash4)

  /** The highest timestamp of a history, 0 while it is empty. */
  function HighWater(accepted: seq<Dm>): nat {
    if accepted == [] then 0 else Max(HighWater(accepted[..|accepted| - 1]), accepted[|accepted| - 1].ts)
  }

  function Fingerprints(accepted: seq<Dm>): (fps: seq<Hash4>)
    ensures |fps| == |accepted| && forall i :: 0 <= i < |fps| ==> fps[i] == accepted[i].fingerprint
  {
    seq(|accepted|, i requires 0 <= i < |accepted| => accepted[i].fingerprint)
  }

  /** The decision, on the whole history of accepted frames. */
  predicate Accepts(accepted: seq<Dm>, dm: Dm) {
    dm.ts > HighWater(accepted) || dm.fingerprint !in Recent(Fingerprints(accepted), REPLAY_RING_LEN)
  }

  class InboundReplayState {
    var lastTs: u32
    const ring: array<Hash4>
    var head: nat
    var count: nat
    /** Every frame ever accepted from this contact, on either side of a reboot. */
    ghost var accepted: seq<Dm>

    ghost predicate Valid()
      reads this, ring
    {
      RingValid() && lastTs == HighWater(accepted)
    }

    ghost predicate RingValid()
      reads this, ring
    {
      ring.Length == REPLAY_RING_LEN && Holds(ring[..], head, count, Fingerprints(accepted))
    }

    constructor ()
      ensures Valid() && fresh(ring) && accepted == []
    {
      lastTs := 0;
      ring := new Hash4[REPLAY_RING_LEN](_ => Hash4(0, 0, 0, 0));
      head, count, accepted := 0, 0, [];
    }

    /** A state rebuilt from what was persisted, with the history it stands for. */
    constructor Restore(p: Persisted, ghost history: seq<Dm>)
      requires Represents(p, history)
      ensures Valid() && fresh(ring) && accepted == history
    {
      lastTs := p.lastTs;
      ring := new Hash4[REPLAY_RING_LEN](i requires 0 <= i < REPLAY_RING_LEN => p.ring[i]);
      head, count, accepted := p.head, p.count, history;
      new;
      assert ring[..] == p.ring;
    }

    method RingContains(fingerprint: Hash4) returns (found: bool)
      requires Valid()
      ensures found <==> fingerprint in Recent(Fingerprints(accepted), REPLAY_RING_LEN)
    {
      ScanSeesRecent(ring[..], head, count, Fingerprints(accepted));
      assert ring[..][..count] == ring[..count];
      var n := Min(count, REPLAY_RING_LEN);
      for i := 0 to n
        invariant fingerprint !in ring[..i]
      {
        if ring[i] == fingerprint {
          assert fingerprint in ring[..count];
          return true;
        }
      }
      return false;
    }

    /** Write the fingerprint of the frame `dm`, which becomes the newest of the history. */
    method RingInsert(dm: Dm)
      requires RingValid()
      modifies this`head, this`count, this`accepted, ring
      ensures RingValid() && accepted == old(accepted) + [dm]
      ensures HighWater(accepted) == Max(HighWater(old(accepted)), dm.ts)
    {
      RecordKeeps(ring[..], head, count, accepted, dm);
      ghost var ring' := ring[..][head := dm.fingerprint];
      ring[head] := dm.fingerprint;
      assert ring[..] == ring';
      head := (head + 1) % REPLAY_RING_LEN;
      if count < REPLAY_RING_LEN {
        count := count + 1;
      }
      accepted := accepted + [dm];
    }

    method CheckAndRecordInbound(dm: Dm) returns (accept: bool)
      requires Valid()
      modifies this, ring
      ensures Valid()
      ensures accept <==> Accepts(old(accepted), dm)
      ensures accepted == if accept then old(accepted) + [dm] else old(accepted)
    {
      if dm.ts > lastTs {
        lastTs := dm.ts;
        RingInsert(dm);
        return true;
      }
      var known := RingContains(dm.fingerprint);
      if known {
        return false;
      }
      RingInsert(dm);
      accept := true;
    }

    /** Encode into the first `STATE_LEN` bytes of `out`. */
    method EncodeState(out: array<u8>) returns (n: nat)
      requires Valid() && out.Length >= STATE_LEN
      modifies out
      ensures n == STATE_LEN && out[..n] == Encode(Image())
      ensures forall i :: n <= i < out.Length ==> out[i] == old(out[i])
    {
      ghost var image := Image();
      n := CopyInto(out, 0, Le32(lastTs));
      for i := 0 to REPLAY_RING_LEN
        invariant n == 4 + 4 * i
        invariant out[..n] == Le32(image.lastTs) + FlatRing(image.ring[..i])
        invariant forall j :: STATE_LEN <= j < out.Length ==> out[j] == old(out[j])
      {
        assert image.ring[..i + 1][..i] == image.ring[..i];
        var h := ring[i];
        n := CopyInto(out, n, [h.b0, h.b1, h.b2, h.b3]);
      }
      assert image.ring[..REPLAY_RING_LEN] == image.ring;
      n := CopyInto(out, n, [head, count]);
    }

    ghost function Image(): Persisted
      requires Valid()
      reads this, ring
    {
      Persisted(lastTs, ring[..], head, count)
    }
  }

  lemma RecordKeeps(ring: seq<Hash4>, head: nat, count: nat, accepted: seq<Dm>, dm: Dm)
    requires |ring| == REPLAY_RING_LEN && Holds(ring, head, count, Fingerprints(accepted))
    ensures Holds(ring[head := dm.fingerprint], (head + 1) % REPLAY_RING_LEN,
                  if count < REPLAY_RING_LEN then count + 1 else count, Fingerprints(accepted + [dm]))
    ensures HighWater(accepted + [dm]) == Max(HighWater(accepted), dm.ts)
  {
    PushKeepsHolds(ring, head, count, Fingerprints(accepted), dm.fingerprint);
    assert Fingerprints(accepted + [dm]) == Fingerprints(accepted) + [dm.fingerprint];
    assert (accepted + [dm])[..|accepted|] == accepted;
  }

  // ── The persisted blob ─────────────────────────────────────────────────────

  datatype Persisted = Persisted(lastTs: u32, ring: seq<Hash4>, head: nat, count: nat)

  ghost predicate Represents(p: Persisted, history: seq<Dm>) {
    && |p.ring| == REPLAY_RING_LEN
    && p.lastTs == HighWater(history)
    && Holds(p.ring, p.head, p.count, Fingerprints(history))
  }

  function FlatRing(ring: seq<Hash4>): (b: seq<u8>)
    ensures |b| == 4 * |ring|
  {
    if ring == [] then []
    else
      var n := |ring| - 1;
      FlatRing(ring[..n]) + [ring[n].b0, ring[n].b1, ring[n].b2, ring[n].b3]
  }

  function Encode(p: Persisted): seq<u8>
    requires p.head < 0x100 && p.count < 0x100
  {
    Le32(p.lastTs) + FlatRing(p.ring) + [p.head, p.count]
  }

  function HashAt(b: seq<u8>, off: nat): Hash4
    requires off + 4 <= |b|
  {
    Hash4(b[off], b[off + 1], b[off + 2], b[off + 3])
  }

  function MarkAt(b: seq<u8>): u32
    requires |b| >= 4
  {
    FromLe32(b[..4])
  }

  /** What a reader makes of the blob: refused unless it is long enough and its two counters are in range. */
  ghost predicate Reads(b: seq<u8>, p: Option<Persisted>) {
    && (p.Some? <==> |b| >= STATE_LEN && b[68] < REPLAY_RING_LEN && b[69] <= REPLAY_RING_LEN)
    && (p.Some? ==>
          && p.value.lastTs == MarkAt(b) && p.value.head == b[68] && p.value.count == b[69]
          && |p.value.ring| == REPLAY_RING_LEN
          && forall i :: 0 <= i < REPLAY_RING_LEN ==> p.value.ring[i] == HashAt(b, 4 + 4 * i))
  }

  method DecodeState(b: seq<u8>) returns (p: Option<Persisted>)
    ensures p.Some? <==> |b| >= 70 && b[68] < 16 && b[69] <= 16
    ensures Reads(b, p)
  {
    if |b| < STATE_LEN {
      return None;
    }
    var ring := new Hash4[REPLAY_RING_LEN](_ => Hash4(0, 0, 0, 0));
    var off := 4;
    for i := 0 to REPLAY_RING_LEN
      invariant off == 4 + 4 * i
      invariant forall j :: 0 <= j < i ==> ring[j] == HashAt(b, 4 + 4 * j)
    {
      ring[i] := HashAt(b, off);
      off := off + 4;
    }
    var head, count := b[off], b[off + 1];
    if head >= REPLAY_RING_LEN || count > REPLAY_RING_LEN {
      return None;
    }
    p := Some(Persisted(MarkAt(b), ring[..], head, count));
  }

  lemma {:induction false} FlatRingAt(ring: seq<Hash4>, i: nat)
    requires i < |ring|
    ensures HashAt(FlatRing(ring), 4 * i) == ring[i]
  {
    var n := |ring| - 1;
    if i < n {
      FlatRingAt(ring[..n], i);
    }
  }

  /** Every field that a reader of the blob looks at is the one that was written. */
  lemma BlobHoldsState(p: Persisted, junk: seq<u8>)
    requires |p.ring| == 16 && p.head < 16 && p.count <= 16
    ensures var b := Encode(p) + junk;
            && |b| >= 70 && b[68] == p.head && b[69] == p.count && MarkAt(b) == p.lastTs
            && forall i :: 0 <= i < 16 ==>
                 && HashAt(b, 4 + 4 * i) == p.ring[i]
                 && b[4 + 4 * i] == p.ring[i].b0 && b[5 + 4 * i] == p.ring[i].b1
                 && b[6 + 4 * i] == p.ring[i].b2 && b[7 + 4 * i] == p.ring[i].b3
  {
    var b := Encode(p) + junk;
    assert b == Le32(p.lastTs) + (FlatRing(p.ring) + [p.head, p.count] + junk);
    Le32RoundTrip(p.lastTs);
    assert b[..4] == Le32(p.lastTs);
    forall i | 0 <= i < REPLAY_RING_LEN
      ensures HashAt(b, 4 + 4 * i) == p.ring[i] == Hash4(b[4 + 4 * i], b[5 + 4 * i], b[6 + 4 * i], b[7 + 4 * i])
    {
      FlatRingAt(p.ring, i);
      assert forall k :: 0 <= k < 64 ==> b[4 + k] == FlatRing(p.ring)[k];
    }
  }

  lemma WrittenIsRead(image: Persisted, junk: seq<u8>, p: Option<Persisted>)
    requires |image.ring| == REPLAY_RING_LEN && image.head < REPLAY_RING_LEN && image.count <= REPLAY_RING_LEN
    requires Reads(Encode(image) + junk, p)
    ensures p == Some(image)
  {
    BlobHoldsState(image, junk);
    assert p.value.ring == image.ring;
  }

  /** A reboot between any two frames, by writing the state out and reading it back, is not noticed. */
  method Reboot(state: InboundReplayState, buffer: array<u8>) returns (restored: InboundReplayState)
    requires state.Valid() && buffer.Length >= STATE_LEN
    modifies buffer
    ensures restored.Valid() && fresh(restored) && fresh(restored.ring)
    ensures restored.accepted == state.accepted
  {
    ghost var image := state.Image();
    var n := state.EncodeState(buffer);
    var blob := buffer[..];
    assert blob == Encode(image) + buffer[n..];
    var p := DecodeState(blob);
    WrittenIsRead(image, buffer[n..], p);
    restored := new InboundReplayState.Restore(p.value, state.accepted);
  }

  // ── What whole runs accept ─────────────────────────────────────────────────

  /** The frames accepted out of all that were presented, from the empty state on. */
  function AcceptedOf(presented: seq<Dm>): seq<Dm> {
    if presented == [] then []
    else
      var before := AcceptedOf(presented[..|presented| - 1]);
      var dm := presented[|presented| - 1];
      if Accepts(before, dm) then before + [dm] else before
  }

  lemma {:induction false} HighWaterIsMaximum(accepted: seq<Dm>)
    ensures forall i :: 0 <= i < |accepted| ==> accepted[i].ts <= HighWater(accepted)
    ensures HighWater(accepted) == 0 || exists i :: 0 <= i < |accepted| && accepted[i].ts == HighWater(accepted)
  {
    if accepted != [] {
      var n := |accepted| - 1;
      HighWaterIsMaximum(accepted[..n]);
      if HighWater(accepted) != 0 && HighWater(accepted) != accepted[n].ts {
        var i :| 0 <= i < n && accepted[..n][i].ts == HighWater(accepted[..n]);
        assert accepted[i].ts == HighWater(accepted);
      }
    }
  }

  /**
   * A frame that was accepted is, presented again after `later` further acceptances of other content, accepted
   * exactly when those are 16 or more.
   */
  lemma ReplayRefusedExactly(before: seq<Dm>, dm: Dm, later: seq<Dm>)
    requires forall i :: 0 <= i < |later| ==> later[i].fingerprint != dm.fingerprint
    ensures Accepts(before + [dm] + later, dm) <==> |later| >= 16
  {
    var history := before + [dm] + later;
    HighWaterIsMaximum(history);
    assert history[|before|] == dm;
    assert Fingerprints(history) == Fingerprints(before) + [dm.fingerprint] + Fingerprints(later);
    LifetimeIff(Fingerprints(before), dm.fingerprint, Fingerprints(later), REPLAY_RING_LEN);
  }

  /** A frame is accepted when it is newer than all before it, or its content is not among the last 16 accepted. */
  lemma AcceptsIff(accepted: seq<Dm>, dm: Dm)
    ensures Accepts(accepted, dm) <==>
            || (dm.ts > 0 && forall i :: 0 <= i < |accepted| ==> accepted[i].ts < dm.ts)
            || forall i :: 0 <= i < |accepted| && |accepted| - 16 <= i ==> accepted[i].fingerprint != dm.fingerprint
  {
    HighWaterIsMaximum(accepted);
    RememberedIff(Fingerprints(accepted), 16, dm.fingerprint);
    forall i | 0 <= i < |accepted|
      ensures Fingerprints(accepted)[i] == accepted[i].fingerprint
    {
    }
  }

  /** Content never accepted before is never refused. */
  lemma FreshContentAccepted(accepted: seq<Dm>, dm: Dm)
    requires forall i :: 0 <= i < |accepted| ==> accepted[i].fingerprint != dm.fingerprint
    ensures Accepts(accepted, dm)
  {
    RememberedIff(Fingerprints(accepted), REPLAY_RING_LEN, dm.fingerprint);
  }

  /** Presenting an accepted frame again at once is always refused, over any run. */
  lemma ImmediateReplayRefused(presented: seq<Dm>, dm: Dm)
    ensures AcceptedOf(presented + [dm] + [dm]) == AcceptedOf(presented + [dm])
  {
    var once := presented + [dm];
    assert once[..|presented|] == presented && (once + [dm])[..|once|] == once;
    var before := AcceptedOf(presented);
    if Accepts(before, dm) {
      ReplayRefusedExactly(before, dm, []);
      assert before + [dm] + [] == before + [dm];
    }
  }

  // ── Starting over from the empty state ─────────────────────────────────────

  /** Having forgotten `history`, the guard accepts whatever it would have accepted with it. */
  lemma ForgettingAcceptsMore(history: seq<Dm>, later: seq<Dm>, dm: Dm)
    requires Accepts(history + later, dm)
    ensures Accepts(later, dm)
  {
    HighWaterConcat(history, later);
    RecentFingerprints(history, later, dm.fingerprint);
  }

  lemma {:induction false} HighWaterConcat(a: seq<Dm>, b: seq<Dm>)
    ensures HighWater(a + b) == Max(HighWater(a), HighWater(b))
  {
    if b == [] {
      assert a + b == a;
    } else {
      HighWaterConcat(a, b[..|b| - 1]);
      assert (a + b)[..|a + b| - 1] == a + b[..|b| - 1];
    }
  }

  lemma RecentFingerprints(history: seq<Dm>, later: seq<Dm>, f: Hash4)
    ensures f in Recent(Fingerprints(later), REPLAY_RING_LEN) ==>
              f in Recent(Fingerprints(history + later), REPLAY_RING_LEN)
  {
    RememberedIff(Fingerprints(later), REPLAY_RING_LEN, f);
    RememberedIff(Fingerprints(history + later), REPLAY_RING_LEN, f);
    if f in Recent(Fingerprints(later), REPLAY_RING_LEN) {
      var i :| 0 <= i < |later| && |later| - REPLAY_RING_LEN <= i && Fingerprints(later)[i] == f;
      assert Fingerprints(history + later)[|history| + i] == f;
    }
  }

  /** Whatever was accepted before is accepted again as the first frame after the fallback. */
  lemma FallbackAcceptsAnything(dm: Dm)
    ensures Accepts([], dm)
  {
  }

  /**
   * After `later` further acceptances, a guard that fell back to the empty state decides every frame as the guard
   * that kept its history would, exactly when the mark has been reached again and every fingerprint that would
   * still be in the ring has been accepted again.
   */
  lemma FallbackIsHarmlessIff(history: seq<Dm>, later: seq<Dm>)
    ensures (forall dm :: Accepts(later, dm) <==> Accepts(history + later, dm)) <==>
            && HighWater(history) <= HighWater(later)
            && (forall f :: f in Recent(Fingerprints(history + later), REPLAY_RING_LEN) ==>
                              f in Recent(Fingerprints(later), REPLAY_RING_LEN))
  {
    var all := history + later;
    HighWaterConcat(history, later);
    forall f
      ensures f in Recent(Fingerprints(later), REPLAY_RING_LEN) ==> f in Recent(Fingerprints(all), REPLAY_RING_LEN)
    {
      RecentFingerprints(history, later, f);
    }
    if HighWater(history) > HighWater(later) {
      HighWaterIsWord(history);
      assert Recent(Fingerprints(all), REPLAY_RING_LEN) != [];
      var dm := Dm(HighWater(history), Recent(Fingerprints(all), REPLAY_RING_LEN)[0]);
      assert Accepts(later, dm) && !Accepts(all, dm);
    } else if f :| && f in Recent(Fingerprints(all), REPLAY_RING_LEN)
                   && f !in Recent(Fingerprints(later), REPLAY_RING_LEN) {
      assert Accepts(later, Dm(0, f)) && !Accepts(all, Dm(0, f));
    }
  }

  /** Once 16 frames have been accepted since, the ring is the same again, and the mark alone decides. */
  lemma FallbackForgottenAfterRing(history: seq<Dm>, later: seq<Dm>)
    requires |later| >= 16
    ensures (forall dm :: Accepts(later, dm) <==> Accepts(history + later, dm)) <==>
            HighWater(history) <= HighWater(later)
  {
    FallbackIsHarmlessIff(history, later);
    assert Fingerprints(history + later) == Fingerprints(history) + Fingerprints(later);
    RecentOfLater(Fingerprints(history), Fingerprints(later), REPLAY_RING_LEN);
  }

  lemma {:induction false} HighWaterIsWord(accepted: seq<Dm>)
    ensures HighWater(accepted) < 0x1_0000_0000
    ensures HighWater(accepted) > 0 ==> accepted != []
  {
    if accepted != [] {
      HighWaterIsWord(accepted[..|accepted| - 1]);
    }
  }

  /** So falling back is harmless from the start exactly when nothing had been accepted. */
  lemma FallbackAtOnceIsHarmlessIff(history: seq<Dm>)
    ensures (forall dm :: Accepts([], dm) <==> Accepts(history, dm)) <==> history == []
  {
    FallbackIsHarmlessIff(history, []);
    assert history + [] == history;
    if history != [] {
      var f := Recent(Fingerprints(history), REPLAY_RING_LEN)[0];
      assert f in Recent(Fingerprints(history), REPLAY_RING_LEN);
    }
  }
}
