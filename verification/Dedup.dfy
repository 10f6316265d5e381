/** The 128-slot ring of packet keys: a frame is a duplicate when its key is among the last 128 inserted. */
module Dedup {
  import opened Words
  import opened Ring

  const DEDUP_SLOTS := 128

  class DuplicateFilter {
    /** `protocol::packet_dedup_key`, of which nothing is assumed but that it is a function of the frame. */
    const key: seq<u8> -> Hash4
    const slots: array<Hash4>
    var head: nat
    var count: nat
    /** The key of every frame ever inserted. */
    ghost var seen: seq<Hash4>

    ghost predicate Valid()
      reads this, slots
    {
      slots.Length == DEDUP_SLOTS && Holds(slots[..], head, count, seen)
    }

    constructor (key: seq<u8> -> Hash4)
      ensures Valid() && fresh(slots)
      ensures seen == [] && this.key == key
    {
      this.key := key;
      slots := new Hash4[DEDUP_SLOTS](_ => Hash4(0, 0, 0, 0));
      head, count, seen := 0, 0, [];
    }

    method IsDuplicate(frame: seq<u8>) returns (dup: bool)
      requires Valid()
      ensures dup <==> key(frame) in Recent(seen, 128)
    {
      var h := key(frame);
      var n := Min(count, DEDUP_SLOTS);
      ScanSeesRecent(slots[..], head, count, seen);
      assert slots[..][..count] == slots[..count];
      for i := 0 to n
        invariant h !in slots[..i]
      {
        if slots[i] == h {
          assert h in slots[..count];
          return true;
        }
      }
      return false;
    }

    method Insert(frame: seq<u8>)
      requires Valid()
      modifies this, slots
      ensures Valid()
      ensures seen == old(seen) + [key(frame)]
    {
      var h := key(frame);
      PushKeepsHolds(slots[..], head, count, seen, h);
      ghost var slots' := slots[..][head := h];
      slots[head] := h;
      assert slots[..] == slots';
      head := (head + 1) % DEDUP_SLOTS;
      if count < DEDUP_SLOTS {
        count := count + 1;
      }
      seen := seen + [h];
    }
  }
}
