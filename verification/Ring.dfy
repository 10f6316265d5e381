/**
 * The fixed ring shared by the duplicate filter, the airtime budget and the replay guard: `slots`, a
 * next-write position `head` and a `count` that saturates at the capacity. Each of them is to be read as the
 * newest entries of an unbounded history.
 */
module Ring {
  import opened Words

  /** The newest `n` entries of `history`, or all of it while it is shorter. */
  function Recent<T>(history: seq<T>, n: nat): seq<T> {
    if |history| <= n then history else history[|history| - n..]
  }

  ghost predicate Shape<T>(slots: seq<T>, head: nat, count: nat) {
    head < |slots| && count <= |slots| && (count < |slots| ==> head == count)
  }

  /** The live entries, oldest first. */
  function Contents<T>(slots: seq<T>, head: nat, count: nat): seq<T>
    requires head <= |slots| && count <= |slots|
  {
    if count < |slots| then slots[..count] else slots[head..] + slots[..head]
  }

  ghost predicate Holds<T>(slots: seq<T>, head: nat, count: nat, history: seq<T>) {
    Shape(slots, head, count) && Contents(slots, head, count) == Recent(history, |slots|)
  }

  /** Overwriting the slot at `head` and advancing keeps the ring equal to the newest part of the history. */
  lemma PushKeepsHolds<T>(slots: seq<T>, head: nat, count: nat, history: seq<T>, x: T)
    requires Holds(slots, head, count, history)
    ensures Holds(slots[head := x], (head + 1) % |slots|, if count < |slots| then count + 1 else count,
                  history + [x])
  {
    var next := NextSlot(head, |slots|);
    if count < |slots| {
      PushWhileFilling(slots, count, x);
      assert history == slots[..count];
    } else {
      PushWhenFull(slots, head, x, next);
      RecentPush(history, |slots|, x);
    }
  }

  lemma NextSlot(head: nat, n: nat) returns (next: nat)
    requires head < n
    ensures next == (head + 1) % n == if head + 1 == n then 0 else head + 1
  {
    next := if head + 1 == n then 0 else head + 1;
    if head + 1 < n {
      assert (head + 1) % n == head + 1;
    }
  }

  lemma PushWhileFilling<T>(slots: seq<T>, count: nat, x: T)
    requires count < |slots|
    ensures slots[count := x][..count + 1] == slots[..count] + [x]
    ensures count + 1 == |slots| ==> slots[count := x][0..] + slots[count := x][..0] == slots[..count] + [x]
  {
  }

  lemma PushWhenFull<T>(slots: seq<T>, head: nat, x: T, next: nat)
    requires head < |slots| && next == if head + 1 == |slots| then 0 else head + 1
    ensures slots[head := x][next..] + slots[head := x][..next] == (slots[head..] + slots[..head])[1..] + [x]
  {
  }

  lemma RecentPush<T>(history: seq<T>, n: nat, x: T)
    requires 0 < n <= |history|
    ensures Recent(history + [x], n) == Recent(history, n)[1..] + [x]
  {
  }

  lemma RecentOfLater<T>(before: seq<T>, later: seq<T>, n: nat)
    requires |later| >= n
    ensures Recent(before + later, n) == Recent(later, n)
  {
  }

  /** A scan of the slots sees exactly the newest entries, and the count is their number. */
  lemma ScanSeesRecent<T>(slots: seq<T>, head: nat, count: nat, history: seq<T>)
    requires Holds(slots, head, count, history)
    ensures count == Min(|history|, |slots|)
    ensures forall x :: x in slots[..count] <==> x in Recent(history, |slots|)
  {
    if count == |slots| {
      assert slots[..count] == slots[..head] + slots[head..];
    }
  }

  /** An entry is remembered exactly while one of the last `n` pushes pushed it. */
  lemma RememberedIff<T>(history: seq<T>, n: nat, x: T)
    ensures x in Recent(history, n) <==> exists i :: 0 <= i < |history| && |history| - n <= i && history[i] == x
  {
    var recent := Recent(history, n);
    var base := |history| - |recent|;
    if x in recent {
      var j :| 0 <= j < |recent| && recent[j] == x;
      assert history[base + j] == x;
    }
    if i :| 0 <= i < |history| && |history| - n <= i && history[i] == x {
      assert recent[i - base] == x;
    }
  }

  /** An entry pushed once more after `before` is remembered through exactly the next `n - 1` other pushes. */
  lemma LifetimeIff<T>(before: seq<T>, x: T, later: seq<T>, n: nat)
    requires x !in later && 0 < n
    ensures x in Recent(before + [x] + later, n) <==> |later| < n
  {
    var history := before + [x] + later;
    RememberedIff(history, n, x);
    assert history[|before|] == x;
    assert forall i :: |before| < i < |history| ==> history[i] == later[i - |before| - 1];
  }
}
