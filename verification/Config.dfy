/**
 * The provisioned configuration: contacts, channels and room extras in fixed arrays with live prefixes, and the
 * invariants that every sequence of upserts and room removals keeps.
 */
module Config {
  import opened Words
  import opened KeyedList

  const MAX_CHANNELS := 8
  const MAX_LOGIN_PASSWORD_LEN := 16
  const MAX_PATH_SIZE := 64
  const ROLE_CHAT: u8 := 0
  const ROLE_ROOM: u8 := 3

  type Bytes16 = s: seq<u8> | |s| == 16 witness seq(16, _ => 0)
  type Bytes32 = s: seq<u8> | |s| == 32 witness seq(32, _ => 0)
  type Bytes64 = s: seq<u8> | |s| == 64 witness seq(64, _ => 0)

  datatype Contact = Contact(pubkey: Bytes32, telemetry: bool, role: u8, name: Bytes32, nameLen: u8)

  datatype Channel = Channel(secret: Bytes32, keyLen: u8, primary: bool, name: Bytes32, nameLen: u8)

  /** Linked to its contact by `pubkey` only, never by position. */
  datatype RoomExtra = RoomExtra(pubkey: Bytes32, password: Bytes16, passwordLen: u8, syncSince: u32,
                                 permissions: u8, outPath: Bytes64, outPathLen: u8)

  function NullContact(): Contact { Contact(seq(32, _ => 0), false, ROLE_CHAT, seq(32, _ => 0), 0) }

  function NullChannel(): Channel { Channel(seq(32, _ => 0), 32, false, seq(32, _ => 0), 0) }

  function NullRoom(): RoomExtra { RoomExtra(seq(32, _ => 0), seq(16, _ => 0), 0, 0, 0, seq(64, _ => 0), 0) }

  function ContactKey(c: Contact): Bytes32 { c.pubkey }

  function ChannelKey(ch: Channel): Bytes32 { ch.secret }

  function RoomKey(r: RoomExtra): Bytes32 { r.pubkey }

  /** The live prefixes of the three arrays. */
  datatype Lists = Lists(contacts: seq<Contact>, channels: seq<Channel>, rooms: seq<RoomExtra>)

  datatype Outcome = Updated | Added | ListFull

  // ── The operations on values ───────────────────────────────────────────────

  function UpsertOutcome<T, K(==)>(list: seq<T>, key: T -> K, item: T, capacity: nat): Outcome {
    if IndexOf(list, key, key(item)) < |list| then Updated
    else if |list| >= capacity then ListFull
    else Added
  }

  /** A known key is updated whatever the length; a new one needs a free place. */
  lemma UpsertOutcomeIff<T, K>(list: seq<T>, key: T -> K, item: T, capacity: nat)
    ensures var outcome := UpsertOutcome(list, key, item, capacity);
            && (outcome == Updated <==> HasKey(list, key, key(item)))
            && (outcome == ListFull <==> !HasKey(list, key, key(item)) && |list| >= capacity)
            && (outcome == Added <==> !HasKey(list, key, key(item)) && |list| < capacity)
  {
  }

  function Demoted(channels: seq<Channel>): (out: seq<Channel>)
    ensures |out| == |channels|
    ensures forall i :: 0 <= i < |out| ==> out[i] == channels[i].(primary := false)
  {
    seq(|channels|, i requires 0 <= i < |channels| => channels[i].(primary := false))
  }

  function AfterUpsertChannel(l: Lists, ch: Channel): (Lists, Outcome) {
    var outcome := UpsertOutcome(l.channels, ChannelKey, ch, MAX_CHANNELS);
    if outcome == ListFull then (l, outcome)
    else
      var demoted := if ch.primary then Demoted(l.channels) else l.channels;
      (l.(channels := Upsert(demoted, ChannelKey, ch)), outcome)
  }

  function AfterUpsertContact(l: Lists, c: Contact): (Lists, Outcome) {
    var outcome := UpsertOutcome(l.contacts, ContactKey, c, MAX_CONTACTS);
    if outcome == ListFull then (l, outcome)
    else (l.(contacts := Upsert(l.contacts, ContactKey, c)), outcome)
  }

  function AfterUpsertRoom(l: Lists, c: Contact, r: RoomExtra): (Lists, Outcome) {
    var (l', outcome) := AfterUpsertContact(l, c.(role := ROLE_ROOM));
    if outcome == ListFull then (l, outcome)
    else (l'.(rooms := Upsert(l'.rooms, RoomKey, r.(pubkey := c.pubkey))), outcome)
  }

  /** The slot of the fixed array that adding the room `c` writes, unless the contact list refuses it. */
  function RoomSlot(l: Lists, c: Contact): nat {
    IndexOf(l.rooms, RoomKey, c.pubkey)
  }

  /** The unguarded write stays within the array. */
  predicate RoomFits(l: Lists, c: Contact) {
    AfterUpsertContact(l, c.(role := ROLE_ROOM)).1 == ListFull || RoomSlot(l, c) < MAX_CONTACTS
  }

  /** The result says whether a contact was found, be it a room or not. */
  function AfterRemoveRoom(l: Lists, pubkey: Bytes32): (Lists, bool) {
    (l.(rooms := Remove(l.rooms, RoomKey, pubkey), contacts := Remove(l.contacts, ContactKey, pubkey)),
    IndexOf(l.contacts, ContactKey, pubkey) < |l.contacts|)
  }

  /** `FRAME_DEL_CONTACT`: the contact goes, the room extras are not looked at. */
  function AfterDelContact(l: Lists, pubkey: Bytes32): Lists {
    l.(contacts := Remove(l.contacts, ContactKey, pubkey))
  }

  /** `FRAME_DEL_CHANNEL`. */
  function AfterDelChannel(l: Lists, secret: Bytes32): Lists {
    l.(channels := Remove(l.channels, ChannelKey, secret))
  }

  // ── The invariant ──────────────────────────────────────────────────────────

  ghost predicate AtMostOnePrimary(channels: seq<Channel>) {
    forall i, j :: 0 <= i < j < |channels| ==> !(channels[i].primary && channels[j].primary)
  }

  ghost predicate RoomsAreContacts(l: Lists) {
    forall i :: 0 <= i < |l.rooms| ==> HasKey(l.contacts, ContactKey, l.rooms[i].pubkey)
  }

  /** What holds of each list on its own. */
  ghost predicate Tidy(l: Lists) {
    && |l.contacts| <= MAX_CONTACTS && |l.channels| <= MAX_CHANNELS
    && Distinct(l.contacts, ContactKey) && Distinct(l.channels, ChannelKey) && Distinct(l.rooms, RoomKey)
    && AtMostOnePrimary(l.channels)
  }

  ghost predicate Inv(l: Lists) {
    Tidy(l) && RoomsAreContacts(l)
  }

  /** A room whose contact is gone. */
  ghost predicate Orphaned(l: Lists, pubkey: Bytes32) {
    HasKey(l.rooms, RoomKey, pubkey) && !HasKey(l.contacts, ContactKey, pubkey)
  }

  lemma NoOrphansIff(l: Lists)
    ensures RoomsAreContacts(l) <==> forall pubkey :: !Orphaned(l, pubkey)
  {
    forall i | 0 <= i < |l.rooms|
      ensures HasKey(l.rooms, RoomKey, l.rooms[i].pubkey)
    {
      assert RoomKey(l.rooms[i]) == l.rooms[i].pubkey;
    }
    if pubkey :| Orphaned(l, pubkey) {
      var i :| 0 <= i < |l.rooms| && RoomKey(l.rooms[i]) == pubkey;
      assert !HasKey(l.contacts, ContactKey, l.rooms[i].pubkey);
    } else {
      forall i | 0 <= i < |l.rooms|
        ensures HasKey(l.contacts, ContactKey, l.rooms[i].pubkey)
      {
        assert !Orphaned(l, l.rooms[i].pubkey);
      }
    }
  }

  /** Every room is a contact, so the room list can never outgrow the contact list. */
  lemma RoomsWithinContacts(l: Lists)
    requires Inv(l)
    ensures |l.rooms| <= |l.contacts| <= MAX_CONTACTS
  {
    forall i | 0 <= i < |l.rooms|
      ensures HasKey(l.contacts, ContactKey, RoomKey(l.rooms[i]))
    {
    }
    NoLongerThan(l.rooms, RoomKey, l.contacts, ContactKey);
  }

  lemma UpsertContactKeepsInv(l: Lists, c: Contact)
    requires Inv(l)
    ensures var (l', outcome) := AfterUpsertContact(l, c);
            && Inv(l')
            && (outcome == ListFull <==> !HasKey(l.contacts, ContactKey, c.pubkey) && |l.contacts| == 16)
            && (outcome == Updated <==> HasKey(l.contacts, ContactKey, c.pubkey))
            && (outcome == ListFull ==> l' == l)
            && (outcome != ListFull ==> HasKey(l'.contacts, ContactKey, c.pubkey))
  {
    UpsertOutcomeIff(l.contacts, ContactKey, c, MAX_CONTACTS);
    UpsertKeys(l.contacts, ContactKey, c);
  }

  lemma UpsertChannelKeepsInv(l: Lists, ch: Channel)
    requires Inv(l)
    ensures var (l', outcome) := AfterUpsertChannel(l, ch);
            && Inv(l')
            && (outcome == ListFull <==> !HasKey(l.channels, ChannelKey, ch.secret) && |l.channels| == 8)
            && (outcome == Updated <==> HasKey(l.channels, ChannelKey, ch.secret))
            && (outcome == ListFull ==> l' == l)
  {
    UpsertOutcomeIff(l.channels, ChannelKey, ch, MAX_CHANNELS);
    DemoteThenUpsert(l.channels, if ch.primary then Demoted(l.channels) else l.channels, ch);
  }

  /** An upsert behind a demotion leaves as many channels as an upsert without one, and at most one is primary. */
  lemma DemoteThenUpsert(channels: seq<Channel>, demoted: seq<Channel>, ch: Channel)
    requires demoted == if ch.primary then Demoted(channels) else channels
    requires Distinct(channels, ChannelKey) && AtMostOnePrimary(channels)
    ensures var after := Upsert(demoted, ChannelKey, ch);
            && |after| == |channels| + (if IndexOf(channels, ChannelKey, ch.secret) < |channels| then 0 else 1)
            && Distinct(after, ChannelKey) && AtMostOnePrimary(after)
  {
    SameIndex(channels, demoted, ch.secret);
    DemotedDistinct(channels, demoted);
    UpsertKeys(demoted, ChannelKey, ch);
    UpsertPrimary(demoted, ch);
  }

  lemma DemotedDistinct(a: seq<Channel>, b: seq<Channel>)
    requires |a| == |b| && forall i :: 0 <= i < |a| ==> a[i].secret == b[i].secret
    requires Distinct(a, ChannelKey)
    ensures Distinct(b, ChannelKey)
  {
    assert forall i :: 0 <= i < |a| ==> ChannelKey(a[i]) == ChannelKey(b[i]);
  }

  lemma UpsertPrimary(channels: seq<Channel>, ch: Channel)
    requires AtMostOnePrimary(channels)
    requires ch.primary ==> forall i :: 0 <= i < |channels| ==> !channels[i].primary
    ensures AtMostOnePrimary(Upsert(channels, ChannelKey, ch))
  {
  }

  lemma SameIndex(a: seq<Channel>, b: seq<Channel>, k: Bytes32)
    requires |a| == |b| && forall i :: 0 <= i < |a| ==> a[i].secret == b[i].secret
    ensures IndexOf(a, ChannelKey, k) == IndexOf(b, ChannelKey, k)
    ensures HasKey(a, ChannelKey, k) <==> IndexOf(a, ChannelKey, k) < |a|
  {
    IndexOfFirst(b, ChannelKey, k, IndexOf(a, ChannelKey, k));
  }

  lemma UpsertRoomKeepsInv(l: Lists, c: Contact, r: RoomExtra)
    requires Inv(l)
    ensures var (l', outcome) := AfterUpsertRoom(l, c, r);
            && Inv(l')
            && (outcome == ListFull ==> l' == l)
            && (outcome == ListFull <==> !HasKey(l.contacts, ContactKey, c.pubkey) && |l.contacts| == 16)
            && (outcome == Updated <==> HasKey(l.contacts, ContactKey, c.pubkey))
            && (outcome != ListFull ==> !HasKey(l.rooms, RoomKey, c.pubkey) ==> |l.rooms| < 16)
  {
    var l' := AfterUpsertRoom(l, c, r).0;
    UpsertContactKeepsInv(l, c.(role := ROLE_ROOM));
    if AfterUpsertRoom(l, c, r).1 != ListFull {
      UpsertRoomKeys(l, c, r);
      NoOrphansIff(l);
      NoOrphansIff(l');
      RoomsWithinContacts(l');
    }
  }

  /** A granted room is a contact and a room afterwards, and all other keys are what they were. */
  lemma UpsertRoomKeys(l: Lists, c: Contact, r: RoomExtra)
    requires Tidy(l) && AfterUpsertRoom(l, c, r).1 != ListFull
    ensures var l' := AfterUpsertRoom(l, c, r).0;
            && Tidy(l') && |l'.rooms| == |l.rooms| + (if HasKey(l.rooms, RoomKey, c.pubkey) then 0 else 1)
            && (forall k :: HasKey(l'.contacts, ContactKey, k) <==> HasKey(l.contacts, ContactKey, k) || k == c.pubkey)
            && (forall k :: HasKey(l'.rooms, RoomKey, k) <==> HasKey(l.rooms, RoomKey, k) || k == c.pubkey)
  {
    var contact, extra := c.(role := ROLE_ROOM), r.(pubkey := c.pubkey);
    assert AfterUpsertRoom(l, c, r).0 ==
           Lists(Upsert(l.contacts, ContactKey, contact), l.channels, Upsert(l.rooms, RoomKey, extra));
    UpsertKeys(l.contacts, ContactKey, contact);
    UpsertKeys(l.rooms, RoomKey, extra);
    assert HasKey(l.rooms, RoomKey, c.pubkey) <==> IndexOf(l.rooms, RoomKey, c.pubkey) < |l.rooms|;
  }

  /** From lists that keep the invariant, the unguarded write is always within the array. */
  lemma RoomAlwaysFits(l: Lists, c: Contact)
    requires Inv(l)
    ensures RoomFits(l, c)
  {
    RoomsWithinContacts(l);
    UpsertRoomKeepsInv(l, c, NullRoom());
    assert HasKey(l.rooms, RoomKey, c.pubkey) <==> RoomSlot(l, c) < |l.rooms|;
  }

  /** The deletions outside `config_store.rs`: one entry goes, and only its own list changes. */
  lemma DeletionsRemove(l: Lists, key: Bytes32)
    requires Tidy(l)
    ensures var l' := AfterDelContact(l, key);
            && l' == l.(contacts := l'.contacts) && Distinct(l'.contacts, ContactKey)
            && AsMap(l'.contacts, ContactKey) == AsMap(l.contacts, ContactKey) - {key}
            && Keys(l'.contacts, ContactKey) == Without(Keys(l.contacts, ContactKey), key)
    ensures var l' := AfterDelChannel(l, key);
            && l' == l.(channels := l'.channels) && Distinct(l'.channels, ChannelKey)
            && AsMap(l'.channels, ChannelKey) == AsMap(l.channels, ChannelKey) - {key}
            && Keys(l'.channels, ChannelKey) == Without(Keys(l.channels, ChannelKey), key)
  {
    RemoveIsMapRemoval(l.contacts, ContactKey, key);
    RemoveIsMapRemoval(l.channels, ChannelKey, key);
  }

  lemma RemoveRoomKeepsInv(l: Lists, pubkey: Bytes32)
    requires Inv(l)
    ensures var (l', found) := AfterRemoveRoom(l, pubkey);
            && Inv(l')
            && !HasKey(l'.rooms, RoomKey, pubkey) && !HasKey(l'.contacts, ContactKey, pubkey)
            && (found <==> HasKey(l.contacts, ContactKey, pubkey))
            && (!found ==> l' == l)
  {
    RemoveDistinct(l.rooms, RoomKey, pubkey);
    RemoveDistinct(l.contacts, ContactKey, pubkey);
    var l' := AfterRemoveRoom(l, pubkey).0;
    forall i | 0 <= i < |l'.rooms|
      ensures HasKey(l'.contacts, ContactKey, l'.rooms[i].pubkey)
    {
      assert HasKey(l'.rooms, RoomKey, RoomKey(l'.rooms[i]));
      assert HasKey(l.rooms, RoomKey, l'.rooms[i].pubkey);
    }
    var i := IndexOf(l.rooms, RoomKey, pubkey);
    if i < |l.rooms| {
      assert HasKey(l.contacts, ContactKey, l.rooms[i].pubkey);
    }
  }

  /**
   * The documented answer, "not found" exactly when no room has the pubkey, is given for any lists exactly when the
   * pubkey is both a contact and a room or neither: a plain contact and an orphaned room are answered wrongly.
   */
  lemma DelRoomAnswersAsDocumentedIff(l: Lists, pubkey: Bytes32)
    ensures (AfterRemoveRoom(l, pubkey).1 <==> HasKey(l.rooms, RoomKey, pubkey)) <==>
            (HasKey(l.contacts, ContactKey, pubkey) <==> HasKey(l.rooms, RoomKey, pubkey))
    ensures !AfterRemoveRoom(l, pubkey).1 && HasKey(l.rooms, RoomKey, pubkey) <==> Orphaned(l, pubkey)
  {
    assert HasKey(l.contacts, ContactKey, pubkey) <==>
           IndexOf(l.contacts, ContactKey, pubkey) < |l.contacts|;
  }

  /** A contact that never was a room is lost to `FRAME_DEL_ROOM`, and the host is told that a room was removed. */
  lemma PlainContactLostToDelRoom(c: Contact)
    ensures var l := RunOf([OpUpsertContact(c)]);
            && l.contacts == [c] && !HasKey(l.rooms, RoomKey, c.pubkey)
            && AfterRemoveRoom(l, c.pubkey) == (Lists([], [], []), true)
  {
    RunOfFirst(OpUpsertContact(c));
    IndexOfFirst([c], ContactKey, c.pubkey, 0);
    assert Remove([c], ContactKey, c.pubkey) == [];
    assert Remove([], RoomKey, c.pubkey) == [];
  }

  // ── Runs ───────────────────────────────────────────────────────────────────

  datatype Op =
    | OpUpsertContact(c: Contact)
    | OpUpsertChannel(ch: Channel)
    | OpUpsertRoom(c: Contact, r: RoomExtra)
    | OpRemoveRoom(pubkey: Bytes32)

  function Apply(l: Lists, op: Op): Lists {
    match op
    case OpUpsertContact(c) => AfterUpsertContact(l, c).0
    case OpUpsertChannel(ch) => AfterUpsertChannel(l, ch).0
    case OpUpsertRoom(c, r) => AfterUpsertRoom(l, c, r).0
    case OpRemoveRoom(pubkey) => AfterRemoveRoom(l, pubkey).0
  }

  function RunOf(ops: seq<Op>): Lists {
    if ops == [] then Lists([], [], []) else Apply(RunOf(ops[..|ops| - 1]), ops[|ops| - 1])
  }

  lemma RunOfFirst(op: Op)
    ensures RunOf([op]) == Apply(Lists([], [], []), op)
  {
    assert [op][..0] == [];
  }

  lemma ApplyKeepsInv(l: Lists, op: Op)
    requires Inv(l)
    ensures Inv(Apply(l, op))
  {
    match op
    case OpUpsertContact(c) => UpsertContactKeepsInv(l, c);
    case OpUpsertChannel(ch) => UpsertChannelKeepsInv(l, ch);
    case OpUpsertRoom(c, r) => UpsertRoomKeepsInv(l, c, r);
    case OpRemoveRoom(pubkey) => RemoveRoomKeepsInv(l, pubkey);
  }

  lemma UpsertChannelKeepsTidy(l: Lists, ch: Channel)
    requires Tidy(l)
    ensures Tidy(AfterUpsertChannel(l, ch).0)
  {
    var noRooms := l.(rooms := []);
    UpsertChannelKeepsInv(noRooms, ch);
  }

  lemma ApplyKeepsTidy(l: Lists, op: Op)
    requires Tidy(l)
    ensures Tidy(Apply(l, op))
  {
    match op
    case OpUpsertContact(c) => UpsertKeys(l.contacts, ContactKey, c);
    case OpUpsertChannel(ch) => UpsertChannelKeepsTidy(l, ch);
    case OpUpsertRoom(c, r) =>
      UpsertKeys(l.contacts, ContactKey, c.(role := ROLE_ROOM));
      UpsertKeys(l.rooms, RoomKey, r.(pubkey := c.pubkey));
    case OpRemoveRoom(pubkey) =>
      RemoveDistinct(l.contacts, ContactKey, pubkey);
      RemoveDistinct(l.rooms, RoomKey, pubkey);
  }

  /** Every configuration reachable from the empty one keeps all the invariants. */
  lemma {:induction false} ReachableKeepsInv(ops: seq<Op>)
    ensures Inv(RunOf(ops)) && |RunOf(ops).rooms| <= |RunOf(ops).contacts| <= MAX_CONTACTS
  {
    if ops != [] {
      ReachableKeepsInv(ops[..|ops| - 1]);
      ApplyKeepsInv(RunOf(ops[..|ops| - 1]), ops[|ops| - 1]);
    }
    RoomsWithinContacts(RunOf(ops));
  }

  // ── The insertion-ordered maps that the lists stand for ────────────────────

  datatype OrderedMap<K, V> = OrderedMap(order: seq<K>, entries: map<K, V>)

  function Put<K, V>(m: OrderedMap<K, V>, k: K, v: V): OrderedMap<K, V> {
    OrderedMap(if k in m.entries then m.order else m.order + [k], m.entries[k := v])
  }

  function Delete<K, V>(m: OrderedMap<K, V>, k: K): OrderedMap<K, V> {
    OrderedMap(Without(m.order, k), m.entries - {k})
  }

  /** There is no room for a new key. */
  predicate Refuses<K, V>(m: OrderedMap<K, V>, k: K, capacity: nat) {
    k !in m.entries && |m.order| >= capacity
  }

  function Demote(ch: Channel): Channel {
    ch.(primary := false)
  }

  datatype Maps = Maps(contacts: OrderedMap<Bytes32, Contact>, channels: OrderedMap<Bytes32, Channel>,
                       rooms: OrderedMap<Bytes32, RoomExtra>)

  /** The operations, told without any list, position or count. */
  function ApplyToMaps(m: Maps, op: Op): Maps {
    match op
    case OpUpsertContact(c) =>
      if Refuses(m.contacts, c.pubkey, MAX_CONTACTS) then m
      else Maps(Put(m.contacts, c.pubkey, c), m.channels, m.rooms)
    case OpUpsertChannel(ch) =>
      if Refuses(m.channels, ch.secret, MAX_CHANNELS) then m
      else
        var others := if ch.primary then MapValues(m.channels.entries, Demote) else m.channels.entries;
        Maps(m.contacts, Put(OrderedMap(m.channels.order, others), ch.secret, ch), m.rooms)
    case OpUpsertRoom(c, r) =>
      if Refuses(m.contacts, c.pubkey, MAX_CONTACTS) then m
      else
        Maps(Put(m.contacts, c.pubkey, c.(role := ROLE_ROOM)), m.channels,
             Put(m.rooms, c.pubkey, r.(pubkey := c.pubkey)))
    case OpRemoveRoom(pubkey) =>
      Maps(Delete(m.contacts, pubkey), m.channels, Delete(m.rooms, pubkey))
  }

  ghost function View<T, K(!new)>(list: seq<T>, key: T -> K): OrderedMap<K, T>
    requires Distinct(list, key)
  {
    OrderedMap(Keys(list, key), AsMap(list, key))
  }

  ghost function ViewOf(l: Lists): Maps
    requires Tidy(l)
  {
    Maps(View(l.contacts, ContactKey), View(l.channels, ChannelKey), View(l.rooms, RoomKey))
  }

  lemma UpsertIsPut<T, K(!new)>(list: seq<T>, key: T -> K, item: T, capacity: nat)
    requires Distinct(list, key)
    ensures Distinct(Upsert(list, key, item), key)
    ensures View(Upsert(list, key, item), key) == Put(View(list, key), key(item), item)
    ensures UpsertOutcome(list, key, item, capacity) == ListFull <==> Refuses(View(list, key), key(item), capacity)
  {
    UpsertIsMapUpdate(list, key, item);
    assert HasKey(list, key, key(item)) <==> IndexOf(list, key, key(item)) < |list|;
  }

  lemma RemoveIsDelete<T, K(!new)>(list: seq<T>, key: T -> K, k: K)
    requires Distinct(list, key)
    ensures Distinct(Remove(list, key, k), key)
    ensures View(Remove(list, key, k), key) == Delete(View(list, key), k)
  {
    RemoveIsMapRemoval(list, key, k);
  }

  /** Demoting every channel changes no key. */
  lemma DemotedView(channels: seq<Channel>)
    requires Distinct(channels, ChannelKey)
    ensures Distinct(Demoted(channels), ChannelKey)
    ensures View(Demoted(channels), ChannelKey) ==
            OrderedMap(Keys(channels, ChannelKey), MapValues(AsMap(channels, ChannelKey), Demote))
  {
    var demoted := Demoted(channels);
    forall i | 0 <= i < |channels|
      ensures ChannelKey(demoted[i]) == ChannelKey(channels[i]) && demoted[i] == Demote(channels[i])
    {
    }
    SameKeysMapped(channels, demoted, ChannelKey, Demote);
  }

  lemma ChannelRefines(l: Lists, ch: Channel)
    requires Tidy(l)
    ensures Tidy(Apply(l, OpUpsertChannel(ch)))
    ensures ViewOf(Apply(l, OpUpsertChannel(ch))) == ApplyToMaps(ViewOf(l), OpUpsertChannel(ch))
  {
    var l' := Apply(l, OpUpsertChannel(ch));
    UpsertChannelKeepsTidy(l, ch);
    UpsertIsPut(l.channels, ChannelKey, ch, MAX_CHANNELS);
    if UpsertOutcome(l.channels, ChannelKey, ch, MAX_CHANNELS) == ListFull {
      assert l' == l;
    } else if ch.primary {
      assert l' == Lists(l.contacts, Upsert(Demoted(l.channels), ChannelKey, ch), l.rooms);
      DemotedView(l.channels);
      UpsertIsPut(Demoted(l.channels), ChannelKey, ch, MAX_CHANNELS);
    }
  }

  lemma RoomRefines(l: Lists, c: Contact, r: RoomExtra)
    requires Tidy(l)
    ensures Tidy(Apply(l, OpUpsertRoom(c, r)))
    ensures ViewOf(Apply(l, OpUpsertRoom(c, r))) == ApplyToMaps(ViewOf(l), OpUpsertRoom(c, r))
  {
    var contact, extra := c.(role := ROLE_ROOM), r.(pubkey := c.pubkey);
    var l' := Apply(l, OpUpsertRoom(c, r));
    ApplyKeepsTidy(l, OpUpsertRoom(c, r));
    UpsertIsPut(l.contacts, ContactKey, contact, MAX_CONTACTS);
    if UpsertOutcome(l.contacts, ContactKey, contact, MAX_CONTACTS) == ListFull {
      assert l' == l;
    } else {
      assert l' == Lists(Upsert(l.contacts, ContactKey, contact), l.channels, Upsert(l.rooms, RoomKey, extra));
      UpsertIsPut(l.rooms, RoomKey, extra, MAX_CONTACTS);
    }
  }

  /**
   * Each of the four operations is, on insertion-ordered maps keyed by pubkey or secret, what it is called, orphaned
   * rooms or not.
   */
  lemma OperationsRefineMaps(l: Lists, op: Op)
    requires Tidy(l)
    ensures Tidy(Apply(l, op)) && ViewOf(Apply(l, op)) == ApplyToMaps(ViewOf(l), op)
  {
    ApplyKeepsTidy(l, op);
    match op
    case OpUpsertContact(c) => UpsertIsPut(l.contacts, ContactKey, c, MAX_CONTACTS);
    case OpUpsertChannel(ch) => ChannelRefines(l, ch);
    case OpUpsertRoom(c, r) => RoomRefines(l, c, r);
    case OpRemoveRoom(pubkey) =>
      RemoveIsDelete(l.contacts, ContactKey, pubkey);
      RemoveIsDelete(l.rooms, RoomKey, pubkey);
  }

  function MapsOf(ops: seq<Op>): Maps {
    if ops == [] then Maps(OrderedMap([], map[]), OrderedMap([], map[]), OrderedMap([], map[]))
    else ApplyToMaps(MapsOf(ops[..|ops| - 1]), ops[|ops| - 1])
  }

  /** So every run of the lists is the run of the maps. */
  lemma {:induction false} RunsRefineMaps(ops: seq<Op>)
    ensures Tidy(RunOf(ops)) && ViewOf(RunOf(ops)) == MapsOf(ops)
  {
    if ops != [] {
      RunsRefineMaps(ops[..|ops| - 1]);
      OperationsRefineMaps(RunOf(ops[..|ops| - 1]), ops[|ops| - 1]);
    }
  }
}
