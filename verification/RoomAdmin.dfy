/**
 * The room frames of the provisioning server: adding, deleting and listing rooms, and what the host is told after
 * any sequence of them.
 */
module RoomAdmin {
  import opened Words
  import opened KeyedList
  import opened Config
  import opened ConfigStore

  const FRAME_RSP_ROOM: u8 := 0x8B
  const FRAME_RSP_ROOMS_DONE: u8 := 0x8C

  /** What `decode_add_room` yields; the decoders are parameters, and nothing is assumed of them. */
  datatype AddRoom = AddRoom(pubkey: Bytes32, password: Bytes16, passwordLen: u8, name: Bytes32, nameLen: u8)

  type AddDecoder = seq<u8> -> Option<AddRoom>

  type DelDecoder = seq<u8> -> Option<Bytes32>

  datatype AddRoomOutcome = RoomAdded | RoomUpdated | RoomListFull | AddDecodeError

  datatype DelRoomOutcome = RoomRemoved | RoomNotFound | DelDecodeError

  /** The arguments of `encode_rsp_room`. */
  datatype RspRoom = RspRoom(index: nat, pubkey: Bytes32, syncSince: u32, permissions: u8, outPath: seq<u8>,
                             name: seq<u8>)

  datatype Frame = Frame(kind: u8, payload: seq<u8>)

  function ContactOf(a: AddRoom): Contact {
    Contact(a.pubkey, false, ROLE_CHAT, a.name, a.nameLen)
  }

  /** A fresh session state: every add resets what the device had learned about the room. */
  function ExtraOf(a: AddRoom): RoomExtra {
    RoomExtra(a.pubkey, a.password, a.passwordLen, 0, 0, seq(64, _ => 0), 0)
  }

  function AddOutcome(o: Outcome): AddRoomOutcome {
    match o
    case Added => RoomAdded
    case Updated => RoomUpdated
    case ListFull => RoomListFull
  }

  /** The lists hold the room as the frame describes it, with a session that has learned nothing yet. */
  ghost predicate Stored(l: Lists, a: AddRoom) {
    && (exists c :: && c in l.contacts && c.pubkey == a.pubkey && c.name == a.name && c.nameLen == a.nameLen
                    && c.role == 3 && !c.telemetry)
    && (exists r :: && r in l.rooms && r.pubkey == a.pubkey && r.password == a.password
                    && r.passwordLen == a.passwordLen && r.syncSince == 0 && r.permissions == 0 && r.outPathLen == 0
                    && r.outPath == seq(64, _ => 0))
  }

  /** What adding a room answers and stores, for any lists. */
  lemma AddStores(l: Lists, a: AddRoom)
    ensures var (l', o) := AfterUpsertRoom(l, ContactOf(a), ExtraOf(a));
            && (AddOutcome(o) == RoomListFull <==> !HasKey(l.contacts, ContactKey, a.pubkey) && |l.contacts| >= 16)
            && (AddOutcome(o) == RoomUpdated <==> HasKey(l.contacts, ContactKey, a.pubkey))
            && AddOutcome(o) != AddDecodeError
            && (o == ListFull ==> l' == l)
            && (AddOutcome(o) != RoomListFull ==> o != ListFull && Stored(l', a))
  {
    var c, r := ContactOf(a).(role := ROLE_ROOM), ExtraOf(a).(pubkey := a.pubkey);
    assert HasKey(l.contacts, ContactKey, a.pubkey) <==> IndexOf(l.contacts, ContactKey, a.pubkey) < |l.contacts|;
    if AfterUpsertRoom(l, ContactOf(a), ExtraOf(a)).1 != ListFull {
      var l' := AfterUpsertRoom(l, ContactOf(a), ExtraOf(a)).0;
      assert l'.contacts[IndexOf(l.contacts, ContactKey, a.pubkey)] == c;
      assert l'.rooms[IndexOf(l.rooms, RoomKey, a.pubkey)] == r;
      assert c in l'.contacts && r in l'.rooms;
    }
  }

  method HandleAddRoom(config: ProvisionedConfig, payload: seq<u8>, decode: AddDecoder)
    returns (outcome: AddRoomOutcome)
    requires config.Shape() && (decode(payload).Some? ==> RoomFits(config.Live(), ContactOf(decode(payload).value)))
    modifies config`contactCount, config`roomCount, config.contacts, config.rooms
    ensures config.Shape() && (old(config.Valid()) ==> config.Valid())
    ensures match decode(payload)
            case None => outcome == AddDecodeError && config.Live() == old(config.Live())
            case Some(a) =>
              var (l', o) := AfterUpsertRoom(old(config.Live()), ContactOf(a), ExtraOf(a));
              config.Live() == l' && outcome == AddOutcome(o)
    ensures outcome == AddDecodeError <==> decode(payload).None?
    ensures decode(payload).Some? ==>
              var a, l := decode(payload).value, old(config.Live());
              && (outcome == RoomListFull <==> !HasKey(l.contacts, ContactKey, a.pubkey) && |l.contacts| >= 16)
              && (outcome == RoomUpdated <==> HasKey(l.contacts, ContactKey, a.pubkey))
              && (outcome == RoomListFull ==> config.Live() == l)
              && (outcome != RoomListFull ==> Stored(config.Live(), a))
  {
    match decode(payload)
    case None => outcome := AddDecodeError;
    case Some(a) =>
      AddStores(config.Live(), a);
      var o := config.UpsertRoom(ContactOf(a), ExtraOf(a));
      outcome := AddOutcome(o);
  }

  method HandleDelRoom(config: ProvisionedConfig, payload: seq<u8>, decode: DelDecoder)
    returns (outcome: DelRoomOutcome)
    requires config.Shape()
    modifies config`contactCount, config`roomCount, config.contacts, config.rooms
    ensures config.Shape() && (old(config.Valid()) ==> config.Valid())
    ensures match decode(payload)
            case None => outcome == DelDecodeError && config.Live() == old(config.Live())
            case Some(pubkey) =>
              var (l', found) := AfterRemoveRoom(old(config.Live()), pubkey);
              && config.Live() == l' && outcome == (if found then RoomRemoved else RoomNotFound)
              && (outcome == RoomNotFound <==> !HasKey(old(config.Live()).contacts, ContactKey, pubkey))
  {
    match decode(payload)
    case None => outcome := DelDecodeError;
    case Some(pubkey) =>
      DelRoomAnswersAsDocumentedIff(config.Live(), pubkey);
      var found := config.RemoveRoom(pubkey);
      outcome := if found then RoomRemoved else RoomNotFound;
  }

  /** The name of the first contact with that pubkey, empty if there is none. */
  function NameOf(contacts: seq<Contact>, pubkey: Bytes32): seq<u8> {
    var j := IndexOf(contacts, ContactKey, pubkey);
    if j < |contacts| then contacts[j].name[..Min(contacts[j].nameLen, 32)] else []
  }

  /** The reply entry for room `i`: its own extras, with the name of its contact. */
  function EntryOf(l: Lists, i: nat): RspRoom
    requires i < |l.rooms|
  {
    var r := l.rooms[i];
    RspRoom(i, r.pubkey, r.syncSince, r.permissions, r.outPath[..Min(r.outPathLen, MAX_PATH_SIZE)],
            NameOf(l.contacts, r.pubkey))
  }

  /** The whole reply, for any lists. */
  ghost predicate IsReply(frames: seq<Frame>, l: Lists, encode: RspRoom -> seq<u8>) {
    && |frames| == |l.rooms| + 1
    && frames[|l.rooms|] == Frame(FRAME_RSP_ROOMS_DONE, [])
    && forall i :: 0 <= i < |l.rooms| ==> frames[i] == Frame(FRAME_RSP_ROOM, encode(EntryOf(l, i)))
  }

  method HandleQueryRooms(config: ProvisionedConfig, encode: RspRoom -> seq<u8>) returns (frames: seq<Frame>)
    requires config.Shape()
    ensures IsReply(frames, config.Live(), encode)
    ensures |frames| == |config.Live().rooms| + 1 && frames[|frames| - 1] == Frame(0x8C, [])
    ensures forall i :: 0 <= i < |frames| - 1 ==> frames[i] == Frame(0x8B, encode(EntryOf(config.Live(), i)))
  {
    frames := [];
    ghost var l := config.Live();
    for i := 0 to config.roomCount
      invariant |frames| == i
      invariant forall k :: 0 <= k < i ==> frames[k] == Frame(FRAME_RSP_ROOM, encode(EntryOf(l, k)))
    {
      var r := config.rooms[i];
      var j := config.FindContact(r.pubkey);
      var name: seq<u8> := [];
      if j < config.contactCount {
        var c := config.contacts[j];
        name := c.name[..Min(c.nameLen, |c.name|)];
      }
      assert l.rooms[i] == r && name == NameOf(l.contacts, r.pubkey);
      var outPathLen := Min(Min(r.outPathLen, |r.outPath|), MAX_PATH_SIZE);
      var entry := RspRoom(i, r.pubkey, r.syncSince, r.permissions, r.outPath[..outPathLen], name);
      assert entry == EntryOf(l, i);
      frames := frames + [Frame(FRAME_RSP_ROOM, encode(entry))];
    }
    frames := frames + [Frame(FRAME_RSP_ROOMS_DONE, [])];
  }

  /** What an entry tells of its room: index, key, sync mark, permissions, and the path as far as it is known. */
  lemma EntryTells(l: Lists, i: nat)
    requires i < |l.rooms|
    ensures var r, e := l.rooms[i], EntryOf(l, i);
            && e.index == i && e.pubkey == r.pubkey && e.syncSince == r.syncSince && e.permissions == r.permissions
            && e.outPath <= r.outPath && |e.outPath| == (if r.outPathLen <= 64 then r.outPathLen else 64)
  {
  }

  /** Which name an entry carries: its own contact's, and an empty one for an orphaned room, of which Inv knows none. */
  lemma NameOfRoom(l: Lists, i: nat, j: nat)
    requires i < |l.rooms|
    ensures Orphaned(l, l.rooms[i].pubkey) ==> EntryOf(l, i).name == []
    ensures Distinct(l.contacts, ContactKey) && j < |l.contacts| && l.contacts[j].pubkey == l.rooms[i].pubkey ==>
              EntryOf(l, i).name == l.contacts[j].name[..Min(l.contacts[j].nameLen, 32)]
    ensures Inv(l) ==> HasKey(l.contacts, ContactKey, l.rooms[i].pubkey)
  {
    var k := l.rooms[i].pubkey;
    assert RoomKey(l.rooms[i]) == k && HasKey(l.rooms, RoomKey, k);
    assert HasKey(l.contacts, ContactKey, k) <==> IndexOf(l.contacts, ContactKey, k) < |l.contacts|;
    if j < |l.contacts| && l.contacts[j].pubkey == k && Distinct(l.contacts, ContactKey) {
      assert ContactKey(l.contacts[j]) == k;
      IndexOfFirst(l.contacts, ContactKey, k, j);
    }
  }

  // ── Whole runs against the host's own book ─────────────────────────────────

  datatype Request = Add(payload: seq<u8>) | Del(payload: seq<u8>)

  /** One request, as the contracts of the handlers state it. */
  function Serve(l: Lists, req: Request, decodeAdd: AddDecoder, decodeDel: DelDecoder): Lists {
    match req
    case Add(payload) =>
      (match decodeAdd(payload)
       case None => l
       case Some(a) => AfterUpsertRoom(l, ContactOf(a), ExtraOf(a)).0)
    case Del(payload) =>
      (match decodeDel(payload)
       case None => l
       case Some(pubkey) => AfterRemoveRoom(l, pubkey).0)
  }

  function ServeAll(reqs: seq<Request>, decodeAdd: AddDecoder, decodeDel: DelDecoder): Lists {
    if reqs == [] then Lists([], [], [])
    else Serve(ServeAll(reqs[..|reqs| - 1], decodeAdd, decodeDel), reqs[|reqs| - 1], decodeAdd, decodeDel)
  }

  /** What a host would write down: the live rooms in the order they were first added, and each one's last add. */
  datatype Book = Book(order: seq<Bytes32>, latest: map<Bytes32, AddRoom>)

  function NoteAdd(b: Book, a: AddRoom): Book {
    if a.pubkey in b.order then Book(b.order, b.latest[a.pubkey := a])
    else if |b.order| < MAX_CONTACTS then Book(b.order + [a.pubkey], b.latest[a.pubkey := a])
    else b
  }

  function NoteDel(b: Book, pubkey: Bytes32): Book {
    Book(Without(b.order, pubkey), b.latest)
  }

  function Note(b: Book, req: Request, decodeAdd: AddDecoder, decodeDel: DelDecoder): Book {
    match req
    case Add(payload) =>
      (match decodeAdd(payload)
       case None => b
       case Some(a) => NoteAdd(b, a))
    case Del(payload) =>
      (match decodeDel(payload)
       case None => b
       case Some(pubkey) => NoteDel(b, pubkey))
  }

  function NoteAll(reqs: seq<Request>, decodeAdd: AddDecoder, decodeDel: DelDecoder): Book {
    if reqs == [] then Book([], map[])
    else Note(NoteAll(reqs[..|reqs| - 1], decodeAdd, decodeDel), reqs[|reqs| - 1], decodeAdd, decodeDel)
  }

  ghost predicate ContactsMatch(cs: seq<Contact>, latest: map<Bytes32, AddRoom>) {
    forall i :: 0 <= i < |cs| ==>
      cs[i].pubkey in latest && cs[i] == ContactOf(latest[cs[i].pubkey]).(role := ROLE_ROOM)
  }

  ghost predicate RoomsMatch(rs: seq<RoomExtra>, latest: map<Bytes32, AddRoom>) {
    forall i :: 0 <= i < |rs| ==> rs[i].pubkey in latest && rs[i] == ExtraOf(latest[rs[i].pubkey])
  }

  /** The device's two lists say the same as the book, in the same order. */
  ghost predicate Mirrors(l: Lists, b: Book) {
    && Inv(l)
    && Keys(l.contacts, ContactKey) == b.order && Keys(l.rooms, RoomKey) == b.order
    && ContactsMatch(l.contacts, b.latest) && RoomsMatch(l.rooms, b.latest)
  }

  lemma KeyInKeys<T, K(!new)>(list: seq<T>, key: T -> K, k: K)
    ensures k in Keys(list, key) <==> HasKey(list, key, k)
    ensures HasKey(list, key, k) <==> IndexOf(list, key, k) < |list|
  {
    if k in Keys(list, key) {
      var i :| 0 <= i < |list| && Keys(list, key)[i] == k;
      assert key(list[i]) == k;
    }
    if HasKey(list, key, k) {
      var i :| 0 <= i < |list| && key(list[i]) == k;
      assert Keys(list, key)[i] == k;
    }
  }

  lemma AddMirrors(l: Lists, b: Book, a: AddRoom)
    requires Mirrors(l, b)
    ensures Mirrors(AfterUpsertRoom(l, ContactOf(a), ExtraOf(a)).0, NoteAdd(b, a))
  {
    var c, r := ContactOf(a).(role := ROLE_ROOM), ExtraOf(a);
    assert r.(pubkey := a.pubkey) == r;
    UpsertRoomKeepsInv(l, ContactOf(a), r);
    KeyInKeys(l.contacts, ContactKey, a.pubkey);
    KeyInKeys(l.rooms, RoomKey, a.pubkey);
    assert |l.contacts| == |b.order|;
    if a.pubkey in b.order || |b.order| < MAX_CONTACTS {
      UpsertKeys(l.contacts, ContactKey, c);
      UpsertKeys(l.rooms, RoomKey, r);
      UpsertMatches(l, a, b.latest);
    }
  }

  lemma UpsertMatches(l: Lists, a: AddRoom, latest: map<Bytes32, AddRoom>)
    requires ContactsMatch(l.contacts, latest) && RoomsMatch(l.rooms, latest)
    requires Distinct(l.contacts, ContactKey) && Distinct(l.rooms, RoomKey)
    ensures ContactsMatch(Upsert(l.contacts, ContactKey, ContactOf(a).(role := ROLE_ROOM)), latest[a.pubkey := a])
    ensures RoomsMatch(Upsert(l.rooms, RoomKey, ExtraOf(a)), latest[a.pubkey := a])
  {
    var cs := Upsert(l.contacts, ContactKey, ContactOf(a).(role := ROLE_ROOM));
    forall i | 0 <= i < |cs| && cs[i] != ContactOf(a).(role := ROLE_ROOM)
      ensures i < |l.contacts| && cs[i] == l.contacts[i] && ContactKey(cs[i]) != a.pubkey
    {
    }
    var rs := Upsert(l.rooms, RoomKey, ExtraOf(a));
    forall i | 0 <= i < |rs| && rs[i] != ExtraOf(a)
      ensures i < |l.rooms| && rs[i] == l.rooms[i] && RoomKey(rs[i]) != a.pubkey
    {
    }
  }

  lemma DelMirrors(l: Lists, b: Book, pubkey: Bytes32)
    requires Mirrors(l, b)
    ensures Mirrors(AfterRemoveRoom(l, pubkey).0, NoteDel(b, pubkey))
  {
    RemoveRoomKeepsInv(l, pubkey);
    RemoveKeys(l.contacts, ContactKey, pubkey);
    RemoveKeys(l.rooms, RoomKey, pubkey);
    RemoveMatches(l, pubkey, b.latest);
  }

  lemma RemoveMatches(l: Lists, pubkey: Bytes32, latest: map<Bytes32, AddRoom>)
    requires ContactsMatch(l.contacts, latest) && RoomsMatch(l.rooms, latest)
    ensures ContactsMatch(Remove(l.contacts, ContactKey, pubkey), latest)
    ensures RoomsMatch(Remove(l.rooms, RoomKey, pubkey), latest)
  {
    RemoveElements(l.contacts, ContactKey, pubkey);
    RemoveElements(l.rooms, RoomKey, pubkey);
  }

  lemma {:induction false} RunMirrors(reqs: seq<Request>, decodeAdd: AddDecoder, decodeDel: DelDecoder)
    ensures Mirrors(ServeAll(reqs, decodeAdd, decodeDel), NoteAll(reqs, decodeAdd, decodeDel))
  {
    if reqs != [] {
      var before, req := reqs[..|reqs| - 1], reqs[|reqs| - 1];
      RunMirrors(before, decodeAdd, decodeDel);
      var l, b := ServeAll(before, decodeAdd, decodeDel), NoteAll(before, decodeAdd, decodeDel);
      match req
      case Add(payload) =>
        if decodeAdd(payload).Some? {
          AddMirrors(l, b, decodeAdd(payload).value);
        }
      case Del(payload) =>
        if decodeDel(payload).Some? {
          DelMirrors(l, b, decodeDel(payload).value);
        }
    }
  }

  /** The entry a host expects for its `i`-th room. */
  function ExpectedEntry(a: AddRoom, i: nat): RspRoom {
    RspRoom(i, a.pubkey, 0, 0, [], a.name[..Min(a.nameLen, 32)])
  }

  /**
   * After any sequence of add and delete requests, whatever the decoders make of them, a query is answered with
   * one entry per room of the host's book, in its order and with its names, and then the end frame.
   */
  lemma QueryTellsTheBook(reqs: seq<Request>, decodeAdd: AddDecoder, decodeDel: DelDecoder, frames: seq<Frame>,
                          encode: RspRoom -> seq<u8>)
    requires IsReply(frames, ServeAll(reqs, decodeAdd, decodeDel), encode)
    ensures var b := NoteAll(reqs, decodeAdd, decodeDel);
            && |frames| == |b.order| + 1 && |b.order| <= MAX_CONTACTS
            && frames[|b.order|] == Frame(FRAME_RSP_ROOMS_DONE, [])
            && forall i :: 0 <= i < |b.order| ==>
                 && b.order[i] in b.latest
                 && frames[i] == Frame(FRAME_RSP_ROOM, encode(ExpectedEntry(b.latest[b.order[i]], i)))
  {
    RunMirrors(reqs, decodeAdd, decodeDel);
    var l, b := ServeAll(reqs, decodeAdd, decodeDel), NoteAll(reqs, decodeAdd, decodeDel);
    forall i | 0 <= i < |b.order|
      ensures b.order[i] in b.latest
      ensures frames[i] == Frame(FRAME_RSP_ROOM, encode(ExpectedEntry(b.latest[b.order[i]], i)))
    {
      assert RoomKey(l.rooms[i]) == Keys(l.rooms, RoomKey)[i] == b.order[i];
      assert ContactKey(l.contacts[i]) == Keys(l.contacts, ContactKey)[i] == b.order[i];
      NameOfRoom(l, i, i);
      assert EntryOf(l, i) == ExpectedEntry(b.latest[b.order[i]], i);
    }
  }
}
