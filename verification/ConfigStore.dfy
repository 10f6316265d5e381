/** `ProvisionedConfig` as the firmware holds it: three fixed arrays updated in place and their live counts. */
module ConfigStore {
  import opened Words
  import opened KeyedList
  import opened Config

  datatype RadioPreset = RadioPreset(freqHz: u32, bwCode: u8, sf: u8, cr: u8, txPowerDbm: u8)

  datatype Settings = Settings(radio: RadioPreset, notifVisual: bool, notifAudible: bool, pin: Bytes16, pinLen: u8,
                               lockFlags: u8)

  const DEFAULT_SETTINGS :=
    Settings(RadioPreset(910_525_000, 0, 7, 1, 22), true, true, seq(16, _ => 0), 0, 0)

  /** The channel array after the demotion and the write is the upserted list, and keeps the invariant. */
  lemma ChannelPlaced(l: Lists, ch: Channel, demoted: seq<Channel>, after: seq<Channel>)
    requires IndexOf(l.channels, ChannelKey, ch.secret) < |l.channels| || |l.channels| < MAX_CHANNELS
    requires demoted == if ch.primary then Demoted(l.channels) else l.channels
    requires var i := IndexOf(l.channels, ChannelKey, ch.secret);
             after == if i < |demoted| then demoted[i := ch] else demoted + [ch]
    ensures var (l', outcome) := AfterUpsertChannel(l, ch);
            && l' == l.(channels := after)
            && outcome == (if IndexOf(l.channels, ChannelKey, ch.secret) < |l.channels| then Updated else Added)
            && (Inv(l) ==> Inv(l'))
  {
    SameIndex(l.channels, demoted, ch.secret);
    if Inv(l) {
      UpsertChannelKeepsInv(l, ch);
    }
  }

  class ProvisionedConfig {
    const contacts: array<Contact>
    var contactCount: nat
    const channels: array<Channel>
    var channelCount: nat
    const rooms: array<RoomExtra>
    var roomCount: nat
    var settings: Settings

    ghost predicate Shape()
      reads this
    {
      && contacts.Length == rooms.Length == MAX_CONTACTS && channels.Length == MAX_CHANNELS
      && contactCount <= MAX_CONTACTS && channelCount <= MAX_CHANNELS && roomCount <= MAX_CONTACTS
    }

    ghost function Live(): Lists
      requires Shape()
      reads this, contacts, channels, rooms
    {
      Lists(contacts[..contactCount], channels[..channelCount], rooms[..roomCount])
    }

    ghost predicate Valid()
      reads this, contacts, channels, rooms
    {
      Shape() && Inv(Live())
    }

    constructor ()
      ensures Valid() && fresh(contacts) && fresh(channels) && fresh(rooms)
      ensures Live() == Lists([], [], []) && settings == DEFAULT_SETTINGS
    {
      contacts := new Contact[MAX_CONTACTS](_ => NullContact());
      channels := new Channel[MAX_CHANNELS](_ => NullChannel());
      rooms := new RoomExtra[MAX_CONTACTS](_ => NullRoom());
      contactCount, channelCount, roomCount := 0, 0, 0;
      settings := DEFAULT_SETTINGS;
    }

    method FindContact(pubkey: Bytes32) returns (idx: nat)
      requires Shape()
      ensures idx == IndexOf(contacts[..contactCount], ContactKey, pubkey)
    {
      idx := 0;
      while idx < contactCount && contacts[idx].pubkey != pubkey
        invariant idx <= contactCount
        invariant forall j :: 0 <= j < idx ==> contacts[j].pubkey != pubkey
      {
        idx := idx + 1;
      }
      IndexOfFirst(contacts[..contactCount], ContactKey, pubkey, idx);
    }

    method FindChannel(secret: Bytes32) returns (idx: nat)
      requires Shape()
      ensures idx == IndexOf(channels[..channelCount], ChannelKey, secret)
    {
      idx := 0;
      while idx < channelCount && channels[idx].secret != secret
        invariant idx <= channelCount
        invariant forall j :: 0 <= j < idx ==> channels[j].secret != secret
      {
        idx := idx + 1;
      }
      IndexOfFirst(channels[..channelCount], ChannelKey, secret, idx);
    }

    method FindRoom(pubkey: Bytes32) returns (idx: nat)
      requires Shape()
      ensures idx == IndexOf(rooms[..roomCount], RoomKey, pubkey)
    {
      idx := 0;
      while idx < roomCount && rooms[idx].pubkey != pubkey
        invariant idx <= roomCount
        invariant forall j :: 0 <= j < idx ==> rooms[j].pubkey != pubkey
      {
        idx := idx + 1;
      }
      IndexOfFirst(rooms[..roomCount], RoomKey, pubkey, idx);
    }

    /** Demote every live channel. */
    method DemoteAll()
      requires Shape()
      modifies channels
      ensures channels[..channelCount] == Demoted(old(channels[..channelCount]))
    {
      ghost var was := channels[..];
      for i := 0 to channelCount
        invariant forall j :: 0 <= j < i ==> channels[j] == was[j].(primary := false)
        invariant forall j :: i <= j < channels.Length ==> channels[j] == was[j]
      {
        channels[i] := channels[i].(primary := false);
      }
    }

    /** Overwrite the live channel at `idx`, or append behind the last one. */
    method PutChannel(idx: nat, ch: Channel)
      requires Shape() && idx <= channelCount && idx < MAX_CHANNELS
      modifies this`channelCount, channels
      ensures Shape()
      ensures var chs := old(channels[..channelCount]);
              channels[..channelCount] == if idx < |chs| then chs[idx := ch] else chs + [ch]
    {
      channels[idx] := ch;
      if idx == channelCount {
        channelCount := channelCount + 1;
      }
    }

    method UpsertChannel(ch: Channel) returns (outcome: Outcome)
      requires Shape()
      modifies this`channelCount, channels
      ensures Shape() && (old(Valid()) ==> Valid())
      ensures (Live(), outcome) == AfterUpsertChannel(old(Live()), ch)
    {
      ghost var live := Live();
      var existing := FindChannel(ch.secret);
      if existing == channelCount && channelCount >= MAX_CHANNELS {
        return ListFull;
      }
      outcome := if existing < channelCount then Updated else Added;
      if ch.primary {
        DemoteAll();
      }
      ghost var demoted := channels[..channelCount];
      PutChannel(existing, ch);
      ChannelPlaced(live, ch, demoted, channels[..channelCount]);
    }

    method PutContact(idx: nat, c: Contact)
      requires Shape() && idx <= contactCount && idx < MAX_CONTACTS
      modifies this`contactCount, contacts
      ensures Shape()
      ensures var cs := old(contacts[..contactCount]);
              contacts[..contactCount] == if idx < |cs| then cs[idx := c] else cs + [c]
    {
      contacts[idx] := c;
      if idx == contactCount {
        contactCount := contactCount + 1;
      }
    }

    method UpsertContact(c: Contact) returns (outcome: Outcome)
      requires Shape()
      modifies this`contactCount, contacts
      ensures Shape() && (old(Valid()) ==> Valid())
      ensures (Live(), outcome) == AfterUpsertContact(old(Live()), c)
    {
      if Inv(Live()) {
        UpsertContactKeepsInv(Live(), c);
      }
      var existing := FindContact(c.pubkey);
      if existing == contactCount && contactCount >= MAX_CONTACTS {
        return ListFull;
      }
      outcome := if existing < contactCount then Updated else Added;
      PutContact(existing, c);
    }

    method PutRoom(idx: nat, r: RoomExtra)
      requires Shape() && idx <= roomCount && idx < MAX_CONTACTS
      modifies this`roomCount, rooms
      ensures Shape()
      ensures var rs := old(rooms[..roomCount]);
              rooms[..roomCount] == if idx < |rs| then rs[idx := r] else rs + [r]
    {
      rooms[idx] := r;
      if idx == roomCount {
        roomCount := roomCount + 1;
      }
    }

    /**
     * No capacity is checked for the room list: the device halts where the room does not fit, which the invariant
     * rules out.
     */
    method UpsertRoom(c: Contact, r: RoomExtra) returns (outcome: Outcome)
      requires Shape() && RoomFits(Live(), c)
      modifies this`contactCount, this`roomCount, contacts, rooms
      ensures Shape() && (old(Valid()) ==> Valid())
      ensures (Live(), outcome) == AfterUpsertRoom(old(Live()), c, r)
    {
      if Inv(Live()) {
        UpsertRoomKeepsInv(Live(), c, r);
      }
      var extra := r.(pubkey := c.pubkey);
      outcome := UpsertContact(c.(role := ROLE_ROOM));
      if outcome == ListFull {
        return;
      }
      var idx := FindRoom(extra.pubkey);
      PutRoom(idx, extra);
    }

    method DropRoom(idx: nat)
      requires Shape() && idx < roomCount
      modifies this`roomCount, rooms
      ensures Shape() && roomCount == old(roomCount) - 1
      ensures var rs := old(rooms[..roomCount]);
              rooms[..roomCount] == rs[..idx] + rs[idx + 1..]
    {
      ghost var was := rooms[..];
      for j := idx to roomCount - 1
        invariant forall k :: idx <= k < j ==> rooms[k] == was[k + 1]
        invariant forall k :: 0 <= k < idx || j <= k < rooms.Length ==> rooms[k] == was[k]
        modifies rooms
      {
        rooms[j] := rooms[j + 1];
      }
      roomCount := roomCount - 1;
    }

    method DropContact(idx: nat)
      requires Shape() && idx < contactCount
      modifies this`contactCount, contacts
      ensures Shape() && contactCount == old(contactCount) - 1
      ensures var cs := old(contacts[..contactCount]);
              contacts[..contactCount] == cs[..idx] + cs[idx + 1..]
    {
      ghost var was := contacts[..];
      for j := idx to contactCount - 1
        invariant forall k :: idx <= k < j ==> contacts[k] == was[k + 1]
        invariant forall k :: 0 <= k < idx || j <= k < contacts.Length ==> contacts[k] == was[k]
        modifies contacts
      {
        contacts[j] := contacts[j + 1];
      }
      contactCount := contactCount - 1;
    }

    method RemoveExtra(pubkey: Bytes32)
      requires Shape()
      modifies this`roomCount, rooms
      ensures Shape()
      ensures Live() == old(Live()).(rooms := Remove(old(Live()).rooms, RoomKey, pubkey))
    {
      var idx := FindRoom(pubkey);
      if idx < roomCount {
        DropRoom(idx);
      }
    }

    method RemoveContact(pubkey: Bytes32) returns (found: bool)
      requires Shape()
      modifies this`contactCount, contacts
      ensures Shape()
      ensures Live() == old(Live()).(contacts := Remove(old(Live()).contacts, ContactKey, pubkey))
      ensures found <==> IndexOf(old(Live()).contacts, ContactKey, pubkey) < |old(Live()).contacts|
    {
      var idx := FindContact(pubkey);
      found := idx < contactCount;
      if found {
        DropContact(idx);
      }
    }

    method RemoveRoom(pubkey: Bytes32) returns (found: bool)
      requires Shape()
      modifies this`contactCount, this`roomCount, contacts, rooms
      ensures Shape() && (old(Valid()) ==> Valid())
      ensures (Live(), found) == AfterRemoveRoom(old(Live()), pubkey)
    {
      if Inv(Live()) {
        RemoveRoomKeepsInv(Live(), pubkey);
      }
      RemoveExtra(pubkey);
      found := RemoveContact(pubkey);
    }
  }
}
