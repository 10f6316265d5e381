/**
 * The edits of the lists that do not look at the rooms: contacts deleted on their own, and contacts appended during
 * the first provisioning.
 */
module ConfigEdits {
  import opened Words
  import opened KeyedList
  import opened Config

  // ── Deleting a contact behind the rooms' back ──────────────────────────────

  /** Deleting a contact leaves the invariant intact exactly when it held and no room has the pubkey. */
  lemma DelContactKeepsInvIff(l: Lists, pubkey: Bytes32)
    requires Tidy(l)
    ensures Inv(AfterDelContact(l, pubkey)) <==> Inv(l) && !HasKey(l.rooms, RoomKey, pubkey)
  {
    RemoveDistinct(l.contacts, ContactKey, pubkey);
    var l' := AfterDelContact(l, pubkey);
    NoOrphansIff(l);
    NoOrphansIff(l');
    forall k
      ensures Orphaned(l', k) <==> Orphaned(l, k) || (k == pubkey && HasKey(l.rooms, RoomKey, k))
    {
    }
  }

  /** Rooms added one after the other, each losing its contact to `FRAME_DEL_CONTACT` before the next. */
  function Churn(cs: seq<Contact>, r: RoomExtra): Lists {
    if cs == [] then Lists([], [], [])
    else
      var c := cs[|cs| - 1];
      AfterDelContact(AfterUpsertRoom(Churn(cs[..|cs| - 1], r), c, r).0, c.pubkey)
  }

  /** Such a run never meets a full contact list, so nothing stops the room list from growing. */
  lemma {:induction false} ChurnOutgrowsRooms(cs: seq<Contact>, r: RoomExtra)
    requires Distinct(cs, ContactKey)
    ensures Churn(cs, r).contacts == [] && Keys(Churn(cs, r).rooms, RoomKey) == Keys(cs, ContactKey)
  {
    if cs != [] {
      var n := |cs| - 1;
      ChurnOutgrowsRooms(cs[..n], r);
      KeyIsNew(cs, Churn(cs[..n], r).rooms);
      AddThenDelete(Churn(cs[..n], r), cs[n], r);
      KeysOfLast(cs);
    }
  }

  /**
   * Every room of such a run is granted by the contact list and written to the next slot, so the write is in bounds
   * exactly for the first 16 rooms: at the seventeenth the unguarded append leaves the array, and the device halts.
   */
  lemma SeventeenthRoomLeavesArray(cs: seq<Contact>, r: RoomExtra, i: nat)
    requires Distinct(cs, ContactKey) && i < |cs|
    ensures var l := Churn(cs[..i], r);
            && AfterUpsertRoom(l, cs[i], r).1 == Added && RoomSlot(l, cs[i]) == |l.rooms| == i
            && (RoomSlot(l, cs[i]) < MAX_CONTACTS <==> i < 16)
  {
    var l := Churn(cs[..i], r);
    ChurnOutgrowsRooms(cs[..i], r);
    assert cs[..i + 1][..i] == cs[..i];
    KeyIsNew(cs[..i + 1], l.rooms);
    IndexOfFirst(l.rooms, RoomKey, cs[i].pubkey, |l.rooms|);
    assert |Keys(l.rooms, RoomKey)| == i;
  }

  lemma KeysOfLast(cs: seq<Contact>)
    requires cs != []
    ensures Keys(cs, ContactKey) == Keys(cs[..|cs| - 1], ContactKey) + [cs[|cs| - 1].pubkey]
  {
  }

  lemma KeyIsNew(cs: seq<Contact>, rooms: seq<RoomExtra>)
    requires cs != [] && Distinct(cs, ContactKey)
    requires Keys(rooms, RoomKey) == Keys(cs[..|cs| - 1], ContactKey)
    ensures forall j :: 0 <= j < |rooms| ==> RoomKey(rooms[j]) != cs[|cs| - 1].pubkey
  {
    forall j | 0 <= j < |rooms|
      ensures RoomKey(rooms[j]) != cs[|cs| - 1].pubkey
    {
      assert RoomKey(rooms[j]) == Keys(rooms, RoomKey)[j] == Keys(cs[..|cs| - 1], ContactKey)[j];
    }
  }

  lemma AddThenDelete(l: Lists, c: Contact, r: RoomExtra)
    requires l.contacts == [] && forall j :: 0 <= j < |l.rooms| ==> RoomKey(l.rooms[j]) != c.pubkey
    ensures var l' := AfterDelContact(AfterUpsertRoom(l, c, r).0, c.pubkey);
            l'.contacts == [] && Keys(l'.rooms, RoomKey) == Keys(l.rooms, RoomKey) + [c.pubkey]
  {
    var contact := c.(role := ROLE_ROOM);
    assert Upsert(l.contacts, ContactKey, contact) == [contact];
    assert AfterUpsertContact(l, contact) == (l.(contacts := [contact]), Added);
    IndexOfFirst(l.rooms, RoomKey, c.pubkey, |l.rooms|);
    IndexOfFirst([contact], ContactKey, c.pubkey, 0);
  }

  /** For any lists that fit the array, the write stays in bounds if it is refused, known, or there is a slot left. */
  lemma RoomFitsIff(l: Lists, c: Contact)
    requires |l.rooms| <= MAX_CONTACTS
    ensures RoomFits(l, c) <==>
            || (!HasKey(l.contacts, ContactKey, c.pubkey) && |l.contacts| >= MAX_CONTACTS)
            || HasKey(l.rooms, RoomKey, c.pubkey)
            || |l.rooms| < MAX_CONTACTS
  {
    assert HasKey(l.contacts, ContactKey, c.pubkey) <==>
           IndexOf(l.contacts, ContactKey, c.pubkey) < |l.contacts|;
    assert HasKey(l.rooms, RoomKey, c.pubkey) <==> RoomSlot(l, c) < |l.rooms|;
  }

  // ── Orphans to be met with ─────────────────────────────────────────────────

  /** The orphan beside a contact that two additions and a deletion lead to. */
  lemma OrphanLeft(a: Contact, c: Contact, r: RoomExtra)
    requires a.pubkey != c.pubkey
    ensures var l := Lists([a], [], [r.(pubkey := c.pubkey)]);
            && AfterDelContact(RunOf([OpUpsertContact(a), OpUpsertRoom(c, r)]), c.pubkey) == l
            && Orphaned(l, c.pubkey) && !Inv(l)
  {
    ContactThenRoom(a, c, r);
    var both, extra := [a, c.(role := ROLE_ROOM)], r.(pubkey := c.pubkey);
    IndexOfFirst(both, ContactKey, c.pubkey, 1);
    assert Remove(both, ContactKey, c.pubkey) == [a];
    assert RoomKey([extra][0]) == c.pubkey;
    NoOrphansIff(Lists([a], [], [extra]));
  }

  /** Deleting that orphan takes the room away and answers that there was none. */
  lemma OrphanAnsweredNotFound(a: Contact, c: Contact, r: RoomExtra)
    requires a.pubkey != c.pubkey
    ensures AfterRemoveRoom(Lists([a], [], [r.(pubkey := c.pubkey)]), c.pubkey) == (Lists([a], [], []), false)
  {
    IndexOfFirst([a], ContactKey, c.pubkey, 1);
    IndexOfFirst([r.(pubkey := c.pubkey)], RoomKey, c.pubkey, 0);
    assert Remove([r.(pubkey := c.pubkey)], RoomKey, c.pubkey) == [];
  }

  lemma ContactThenRoom(a: Contact, c: Contact, r: RoomExtra)
    requires a.pubkey != c.pubkey
    ensures RunOf([OpUpsertContact(a), OpUpsertRoom(c, r)]) ==
            Lists([a, c.(role := ROLE_ROOM)], [], [r.(pubkey := c.pubkey)])
  {
    var ops := [OpUpsertContact(a), OpUpsertRoom(c, r)];
    assert ops[..1] == [OpUpsertContact(a)];
    RunOfFirst(OpUpsertContact(a));
    assert Upsert([], ContactKey, a) == [a];
    IndexOfFirst([a], ContactKey, c.pubkey, 1);
    assert Upsert([a], ContactKey, c.(role := ROLE_ROOM)) == [a, c.(role := ROLE_ROOM)];
  }

  /** Two rooms beside a contact, deleted as contacts one after the other. */
  lemma TwoRoomsDeleted(a: Contact, c: Contact, d: Contact, r: RoomExtra)
    requires a.pubkey != c.pubkey && c.pubkey != d.pubkey && a.pubkey != d.pubkey
    ensures var l := RunOf([OpUpsertContact(a), OpUpsertRoom(c, r), OpUpsertRoom(d, r)]);
            var rooms := [r.(pubkey := c.pubkey), r.(pubkey := d.pubkey)];
            && AfterDelContact(l, c.pubkey) == Lists([a, d.(role := ROLE_ROOM)], [], rooms)
            && AfterDelContact(AfterDelContact(l, c.pubkey), d.pubkey) == Lists([a], [], rooms)
  {
    var c', d' := c.(role := ROLE_ROOM), d.(role := ROLE_ROOM);
    TwoRooms(a, c, d, r);
    IndexOfFirst([a, c', d'], ContactKey, c.pubkey, 1);
    assert Remove([a, c', d'], ContactKey, c.pubkey) == [a, d'];
    IndexOfFirst([a, d'], ContactKey, d.pubkey, 1);
    assert Remove([a, d'], ContactKey, d.pubkey) == [a];
  }

  lemma TwoRooms(a: Contact, c: Contact, d: Contact, r: RoomExtra)
    requires a.pubkey != c.pubkey && c.pubkey != d.pubkey && a.pubkey != d.pubkey
    ensures RunOf([OpUpsertContact(a), OpUpsertRoom(c, r), OpUpsertRoom(d, r)]) ==
            Lists([a, c.(role := ROLE_ROOM), d.(role := ROLE_ROOM)], [],
                  [r.(pubkey := c.pubkey), r.(pubkey := d.pubkey)])
  {
    var c', d', rc, rd := c.(role := ROLE_ROOM), d.(role := ROLE_ROOM), r.(pubkey := c.pubkey), r.(pubkey := d.pubkey);
    ContactThenRoom(a, c, r);
    SecondRoom([a, c'], [rc], d, r);
    var ops := [OpUpsertContact(a), OpUpsertRoom(c, r), OpUpsertRoom(d, r)];
    assert ops[..2] == [OpUpsertContact(a), OpUpsertRoom(c, r)];
    assert [a, c'] + [d'] == [a, c', d'] && [rc] + [rd] == [rc, rd];
  }

  lemma SecondRoom(contacts: seq<Contact>, rooms: seq<RoomExtra>, d: Contact, r: RoomExtra)
    requires |contacts| < MAX_CONTACTS
    requires !HasKey(contacts, ContactKey, d.pubkey) && !HasKey(rooms, RoomKey, d.pubkey)
    ensures AfterUpsertRoom(Lists(contacts, [], rooms), d, r).0 ==
            Lists(contacts + [d.(role := ROLE_ROOM)], [], rooms + [r.(pubkey := d.pubkey)])
  {
  }

  // ── The provisioning session before the first boot ─────────────────────────

  /** `FRAME_ADD_CONTACT` of that session appends without looking for the pubkey. */
  function AfterAppendContact(l: Lists, c: Contact): (Lists, Outcome) {
    if |l.contacts| >= MAX_CONTACTS then (l, ListFull)
    else (l.(contacts := l.contacts + [c.(role := ROLE_CHAT)]), Added)
  }

  /** So it can list a contact twice; the invariant holds exactly when it does not, and no other room is orphaned. */
  lemma AppendContactKeepsInvIff(l: Lists, c: Contact)
    requires Tidy(l) && AfterAppendContact(l, c).1 == Added
    ensures Inv(AfterAppendContact(l, c).0) <==>
            !HasKey(l.contacts, ContactKey, c.pubkey) && forall k :: Orphaned(l, k) ==> k == c.pubkey
  {
    var l' := AfterAppendContact(l, c).0;
    var n := |l.contacts|;
    if HasKey(l.contacts, ContactKey, c.pubkey) {
      var i :| 0 <= i < n && ContactKey(l.contacts[i]) == c.pubkey;
      assert ContactKey(l'.contacts[i]) == ContactKey(l'.contacts[n]);
    } else {
      forall k
        ensures HasKey(l'.contacts, ContactKey, k) <==> HasKey(l.contacts, ContactKey, k) || k == c.pubkey
      {
        AppendedKeys(l.contacts, c.(role := ROLE_CHAT), k);
      }
      NoOrphansIff(l');
      assert forall k :: Orphaned(l', k) <==> Orphaned(l, k) && k != c.pubkey;
    }
  }

  lemma AppendedKeys(contacts: seq<Contact>, c: Contact, k: Bytes32)
    ensures HasKey(contacts + [c], ContactKey, k) <==> HasKey(contacts, ContactKey, k) || k == c.pubkey
  {
    var after := contacts + [c];
    if HasKey(contacts, ContactKey, k) {
      var i :| 0 <= i < |contacts| && ContactKey(contacts[i]) == k;
      assert ContactKey(after[i]) == k;
    }
    if k == c.pubkey {
      assert ContactKey(after[|contacts|]) == k;
    }
  }
}
