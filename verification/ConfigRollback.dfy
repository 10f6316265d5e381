/** What is left of the lists when an edit could not be saved, and its count is lowered by one. */
module ConfigRollback {
  import opened Words
  import opened KeyedList
  import opened Config
  import opened ConfigEdits

  // ── Rolling back after a failed save ───────────────────────────────────────

  datatype ConfigKind = KindContact | KindChannel | KindRoom

  /** A failed save takes back the edit by lowering the count of the edited list by one. */
  function RolledBack(l: Lists, kind: ConfigKind): Lists {
    match kind
    case KindContact => l.(contacts := WithoutLast(l.contacts))
    case KindChannel => l.(channels := WithoutLast(l.channels))
    case KindRoom => l.(contacts := WithoutLast(l.contacts), rooms := WithoutLast(l.rooms))
  }

  /** After adding a contact the rollback restores the lists exactly when the contact was new. */
  lemma ContactRollbackRestoresIff(l: Lists, c: Contact)
    requires AfterUpsertContact(l, c).1 != ListFull
    ensures RolledBack(AfterUpsertContact(l, c).0, KindContact) == l <==> !HasKey(l.contacts, ContactKey, c.pubkey)
  {
    WithoutLastOfUpsert(l.contacts, ContactKey, c);
  }

  /** After adding a room, exactly when neither a contact nor a room had its pubkey. */
  lemma RoomRollbackRestoresIff(l: Lists, c: Contact, r: RoomExtra)
    requires AfterUpsertRoom(l, c, r).1 != ListFull
    ensures RolledBack(AfterUpsertRoom(l, c, r).0, KindRoom) == l <==>
            !HasKey(l.contacts, ContactKey, c.pubkey) && !HasKey(l.rooms, RoomKey, c.pubkey)
  {
    WithoutLastOfUpsert(l.contacts, ContactKey, c.(role := ROLE_ROOM));
    WithoutLastOfUpsert(l.rooms, RoomKey, r.(pubkey := c.pubkey));
  }

  /** After adding a channel the demotions stay, so it must also not have taken the primary flag from another. */
  lemma ChannelRollbackRestoresIff(l: Lists, ch: Channel)
    requires AfterUpsertChannel(l, ch).1 != ListFull
    ensures RolledBack(AfterUpsertChannel(l, ch).0, KindChannel) == l <==>
            && !HasKey(l.channels, ChannelKey, ch.secret)
            && (ch.primary ==> forall i :: 0 <= i < |l.channels| ==> !l.channels[i].primary)
  {
    var demoted := if ch.primary then Demoted(l.channels) else l.channels;
    SameIndex(l.channels, demoted, ch.secret);
    SameIndex(demoted, l.channels, ch.secret);
    WithoutLastOfUpsert(demoted, ChannelKey, ch);
    if HasKey(l.channels, ChannelKey, ch.secret) {
      assert |WithoutLast(Upsert(demoted, ChannelKey, ch))| < |l.channels|;
    } else {
      DemotedIsSameIff(l.channels);
    }
  }

  lemma DemotedIsSameIff(channels: seq<Channel>)
    ensures Demoted(channels) == channels <==> forall i :: 0 <= i < |channels| ==> !channels[i].primary
  {
    forall i | 0 <= i < |channels|
      ensures Demoted(channels)[i] == channels[i] <==> !channels[i].primary
    {
    }
  }

  /** After a deletion the rollback never restores the lists: it drops one more entry. */
  lemma DeletionRollbackNeverRestores(l: Lists, pubkey: Bytes32)
    requires HasKey(l.contacts, ContactKey, pubkey)
    ensures RolledBack(AfterDelContact(l, pubkey), KindContact) != l
    ensures RolledBack(AfterRemoveRoom(l, pubkey).0, KindRoom) != l
  {
    assert IndexOf(l.contacts, ContactKey, pubkey) < |l.contacts|;
    assert |Remove(l.contacts, ContactKey, pubkey)| < |l.contacts|;
  }

  // What the rollback of each edit leaves, told from the lists before the edit.

  /** Every one of these rooms has one of these contacts. */
  ghost predicate AllHaveContacts(rooms: seq<RoomExtra>, contacts: seq<Contact>) {
    forall k :: HasKey(rooms, RoomKey, k) ==> HasKey(contacts, ContactKey, k)
  }

  lemma InvIff(l: Lists)
    ensures Inv(l) <==> Tidy(l) && AllHaveContacts(l.rooms, l.contacts)
  {
    NoOrphansIff(l);
  }

  /** Adding a contact that was known costs the last contact; adding a new one costs nothing. */
  lemma ContactRollbackKeepsInvIff(l: Lists, c: Contact)
    requires Tidy(l) && AfterUpsertContact(l, c).1 != ListFull
    ensures Inv(RolledBack(AfterUpsertContact(l, c).0, KindContact)) <==>
            AllHaveContacts(l.rooms,
                            if HasKey(l.contacts, ContactKey, c.pubkey) then WithoutLast(l.contacts) else l.contacts)
  {
    var l' := RolledBack(AfterUpsertContact(l, c).0, KindContact);
    var contacts := if HasKey(l.contacts, ContactKey, c.pubkey) then WithoutLast(l.contacts) else l.contacts;
    forall k
      ensures Distinct(l'.contacts, ContactKey)
      ensures HasKey(l'.contacts, ContactKey, k) <==> HasKey(contacts, ContactKey, k)
    {
      KeysAfterUpsertAndLoss(l.contacts, ContactKey, c, k);
    }
    InvIff(l');
  }

  /** Adding a room costs the last contact if its contact was known, and the last room if the room was. */
  lemma RoomRollbackKeepsInvIff(l: Lists, c: Contact, r: RoomExtra)
    requires Tidy(l) && AfterUpsertRoom(l, c, r).1 != ListFull
    ensures Inv(RolledBack(AfterUpsertRoom(l, c, r).0, KindRoom)) <==>
            AllHaveContacts(if HasKey(l.rooms, RoomKey, c.pubkey) then WithoutLast(l.rooms) else l.rooms,
                            if HasKey(l.contacts, ContactKey, c.pubkey) then WithoutLast(l.contacts) else l.contacts)
  {
    var contact, extra := c.(role := ROLE_ROOM), r.(pubkey := c.pubkey);
    var l' := RolledBack(AfterUpsertRoom(l, c, r).0, KindRoom);
    var contacts := if HasKey(l.contacts, ContactKey, c.pubkey) then WithoutLast(l.contacts) else l.contacts;
    var rooms := if HasKey(l.rooms, RoomKey, c.pubkey) then WithoutLast(l.rooms) else l.rooms;
    forall k
      ensures Distinct(l'.contacts, ContactKey) && Distinct(l'.rooms, RoomKey)
      ensures HasKey(l'.contacts, ContactKey, k) <==> HasKey(contacts, ContactKey, k)
      ensures HasKey(l'.rooms, RoomKey, k) <==> HasKey(rooms, RoomKey, k)
    {
      KeysAfterUpsertAndLoss(l.contacts, ContactKey, contact, k);
      KeysAfterUpsertAndLoss(l.rooms, RoomKey, extra, k);
    }
    assert Tidy(l');
    InvIff(l');
  }

  lemma ChannelRollbackKeepsInvIff(l: Lists, ch: Channel)
    requires Tidy(l) && AfterUpsertChannel(l, ch).1 != ListFull
    ensures Inv(RolledBack(AfterUpsertChannel(l, ch).0, KindChannel)) <==> Inv(l)
  {
    UpsertChannelKeepsTidy(l, ch);
  }

  /** Deleting a contact costs it and the last of the others: no room may have the pubkey of either. */
  lemma DelContactRollbackKeepsInvIff(l: Lists, pubkey: Bytes32)
    requires Tidy(l) && HasKey(l.contacts, ContactKey, pubkey)
    ensures Inv(RolledBack(AfterDelContact(l, pubkey), KindContact)) <==>
            forall k :: HasKey(l.rooms, RoomKey, k) ==> Remains(l.contacts, ContactKey, pubkey, k)
  {
    var l' := RolledBack(AfterDelContact(l, pubkey), KindContact);
    forall k
      ensures Distinct(l'.contacts, ContactKey)
      ensures HasKey(l'.contacts, ContactKey, k) <==> Remains(l.contacts, ContactKey, pubkey, k)
    {
      KeysAfterRemoveAndLoss(l.contacts, ContactKey, pubkey, k);
    }
    assert Tidy(l');
    InvIff(l');
  }

  /** Deleting a room costs it and the last of the others in both lists, which need not be the same one. */
  lemma DelRoomRollbackKeepsInvIff(l: Lists, pubkey: Bytes32)
    requires Tidy(l) && HasKey(l.contacts, ContactKey, pubkey)
    ensures Inv(RolledBack(AfterRemoveRoom(l, pubkey).0, KindRoom)) <==>
            forall k :: Remains(l.rooms, RoomKey, pubkey, k) ==> Remains(l.contacts, ContactKey, pubkey, k)
  {
    var l' := RolledBack(AfterRemoveRoom(l, pubkey).0, KindRoom);
    forall k
      ensures Distinct(l'.contacts, ContactKey) && Distinct(l'.rooms, RoomKey)
      ensures HasKey(l'.contacts, ContactKey, k) <==> Remains(l.contacts, ContactKey, pubkey, k)
      ensures HasKey(l'.rooms, RoomKey, k) <==> Remains(l.rooms, RoomKey, pubkey, k)
    {
      KeysAfterRemoveAndLoss(l.contacts, ContactKey, pubkey, k);
      KeysAfterRemoveAndLoss(l.rooms, RoomKey, pubkey, k);
    }
    assert Tidy(l');
    InvIff(l');
  }

  /** A contact before a room is added again, and the save fails: the room is orphaned. */
  lemma ReAddRollbackOrphansRoom(a: Contact, c: Contact, r: RoomExtra)
    requires a.pubkey != c.pubkey
    ensures var l := RunOf([OpUpsertContact(a), OpUpsertRoom(c, r)]);
            var l' := RolledBack(AfterUpsertContact(l, a).0, KindContact);
            Inv(l) && l' == Lists([a], [], [r.(pubkey := c.pubkey)]) && Orphaned(l', c.pubkey) && !Inv(l')
  {
    ReachableKeepsInv([OpUpsertContact(a), OpUpsertRoom(c, r)]);
    ContactThenRoom(a, c, r);
    var l := RunOf([OpUpsertContact(a), OpUpsertRoom(c, r)]);
    IndexOfFirst(l.contacts, ContactKey, a.pubkey, 0);
    OrphanLeft(a, c, r);
  }

  /** The orphan re-added, and the save fails: contact and room extra are both gone. */
  lemma ReAddedOrphanIsLostByRollback(a: Contact, c: Contact, r: RoomExtra)
    requires a.pubkey != c.pubkey && r.pubkey == c.pubkey
    ensures var l := Lists([a], [], [r]);
            && AfterUpsertRoom(l, c, r).1 == Added
            && RolledBack(AfterUpsertRoom(l, c, r).0, KindRoom) == Lists([a], [], []) != l
  {
    IndexOfFirst([a], ContactKey, c.pubkey, 1);
    IndexOfFirst([r], RoomKey, c.pubkey, 0);
  }
}
