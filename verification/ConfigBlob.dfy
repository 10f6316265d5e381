/** Writing the configuration into a caller's buffer and reading it back, entry by entry. */
module ConfigBlob {
  import opened Words
  import opened Bytes
  import opened Config
  import opened ConfigStore
  import opened ConfigCodec

  ghost function Snapshot(cfg: ProvisionedConfig): Image
    requires cfg.Shape()
    reads cfg, cfg.contacts, cfg.channels, cfg.rooms
  {
    Fields(cfg.contacts[..], cfg.contactCount, cfg.channels[..], cfg.channelCount, cfg.rooms[..], cfg.roomCount,
           cfg.settings)
  }

  method WriteHeader(cfg: ProvisionedConfig, out: array<u8>) returns (off: nat)
    requires cfg.Shape() && out.Length >= HEADER_LEN
    modifies out
    ensures off == HEADER_LEN
    ensures out[..off] == EncHeader(CFG_VERSION, Snapshot(cfg)) + [cfg.roomCount]
    ensures forall i :: off <= i < out.Length ==> out[i] == old(out[i])
  {
    var s := cfg.settings;
    off := CopyInto(out, 0, [CFG_VERSION, cfg.contactCount, cfg.channelCount, s.lockFlags, s.pinLen]);
    off := CopyInto(out, off, s.pin);
    off := CopyInto(out, off, [BoolByte(s.notifVisual), BoolByte(s.notifAudible)]);
    off := CopyInto(out, off, Le32(s.radio.freqHz));
    off := CopyInto(out, off, [s.radio.bwCode, s.radio.sf, s.radio.cr, s.radio.txPowerDbm]);
    off := CopyInto(out, off, [cfg.roomCount]);
  }

  method WriteContact(c: Contact, out: array<u8>, off: nat) returns (next: nat)
    requires off + CONTACT_LEN <= out.Length
    modifies out
    ensures next == off + CONTACT_LEN
    ensures out[..next] == old(out[..off]) + EncContact(c)
    ensures forall i :: next <= i < out.Length ==> out[i] == old(out[i])
  {
    next := CopyInto(out, off, c.pubkey);
    next := CopyInto(out, next, [BoolByte(c.telemetry), c.role, c.nameLen]);
    next := CopyInto(out, next, c.name);
  }

  method WriteChannel(ch: Channel, out: array<u8>, off: nat) returns (next: nat)
    requires off + CHANNEL_LEN <= out.Length
    modifies out
    ensures next == off + CHANNEL_LEN
    ensures out[..next] == old(out[..off]) + EncChannel(ch)
    ensures forall i :: next <= i < out.Length ==> out[i] == old(out[i])
  {
    next := CopyInto(out, off, ch.secret);
    next := CopyInto(out, next, [ch.keyLen, BoolByte(ch.primary), ch.nameLen]);
    next := CopyInto(out, next, ch.name);
  }

  method WriteRoom(r: RoomExtra, out: array<u8>, off: nat) returns (next: nat)
    requires off + ROOM_LEN <= out.Length
    modifies out
    ensures next == off + ROOM_LEN
    ensures out[..next] == old(out[..off]) + EncRoom(r)
    ensures forall i :: next <= i < out.Length ==> out[i] == old(out[i])
  {
    next := CopyInto(out, off, r.pubkey);
    next := CopyInto(out, next, [r.passwordLen]);
    next := CopyInto(out, next, r.password);
    next := CopyInto(out, next, Le32(r.syncSince));
    next := CopyInto(out, next, [r.permissions, r.outPathLen]);
    next := CopyInto(out, next, r.outPath);
  }

  method WriteContacts(cfg: ProvisionedConfig, out: array<u8>, from: nat) returns (off: nat)
    requires cfg.Shape() && from + CONTACT_LEN * cfg.contactCount <= out.Length
    modifies out
    ensures off == from + CONTACT_LEN * cfg.contactCount
    ensures out[..off] == old(out[..from]) + Flat(cfg.contacts[..cfg.contactCount], EncContact)
    ensures forall i :: off <= i < out.Length ==> out[i] == old(out[i])
  {
    off := from;
    for i := 0 to cfg.contactCount
      invariant off == from + CONTACT_LEN * i
      invariant out[..off] == old(out[..from]) + Flat(cfg.contacts[..i], EncContact)
      invariant forall j :: off <= j < out.Length ==> out[j] == old(out[j])
    {
      assert cfg.contacts[..i + 1][..i] == cfg.contacts[..i];
      off := WriteContact(cfg.contacts[i], out, off);
    }
  }

  method WriteChannels(cfg: ProvisionedConfig, out: array<u8>, from: nat) returns (off: nat)
    requires cfg.Shape() && from + CHANNEL_LEN * cfg.channelCount <= out.Length
    modifies out
    ensures off == from + CHANNEL_LEN * cfg.channelCount
    ensures out[..off] == old(out[..from]) + Flat(cfg.channels[..cfg.channelCount], EncChannel)
    ensures forall i :: off <= i < out.Length ==> out[i] == old(out[i])
  {
    off := from;
    for i := 0 to cfg.channelCount
      invariant off == from + CHANNEL_LEN * i
      invariant out[..off] == old(out[..from]) + Flat(cfg.channels[..i], EncChannel)
      invariant forall j :: off <= j < out.Length ==> out[j] == old(out[j])
    {
      assert cfg.channels[..i + 1][..i] == cfg.channels[..i];
      off := WriteChannel(cfg.channels[i], out, off);
    }
  }

  method WriteRooms(cfg: ProvisionedConfig, out: array<u8>, from: nat) returns (off: nat)
    requires cfg.Shape() && from + ROOM_LEN * cfg.roomCount <= out.Length
    modifies out
    ensures off == from + ROOM_LEN * cfg.roomCount
    ensures out[..off] == old(out[..from]) + Flat(cfg.rooms[..cfg.roomCount], EncRoom)
    ensures forall i :: off <= i < out.Length ==> out[i] == old(out[i])
  {
    off := from;
    for i := 0 to cfg.roomCount
      invariant off == from + ROOM_LEN * i
      invariant out[..off] == old(out[..from]) + Flat(cfg.rooms[..i], EncRoom)
      invariant forall j :: off <= j < out.Length ==> out[j] == old(out[j])
    {
      assert cfg.rooms[..i + 1][..i] == cfg.rooms[..i];
      off := WriteRoom(cfg.rooms[i], out, off);
    }
  }

  /** The buffer must hold what is written; `MAX_BLOB_LEN` bytes always do. */
  method SerializeConfig(cfg: ProvisionedConfig, out: array<u8>) returns (n: nat)
    requires cfg.Shape() && |Encode(Snapshot(cfg))| <= out.Length
    modifies out
    ensures n == |Encode(Snapshot(cfg))|
    ensures out[..n] == Encode(Snapshot(cfg))
    ensures forall i :: n <= i < out.Length ==> out[i] == old(out[i])
  {
    EncodeLength(Snapshot(cfg));
    n := WriteHeader(cfg, out);
    n := WriteContacts(cfg, out, n);
    n := WriteChannels(cfg, out, n);
    n := WriteRooms(cfg, out, n);
  }

  // ── Reading ────────────────────────────────────────────────────────────────

  method ReadContacts(b: seq<u8>, from: nat, count: nat) returns (all: seq<Contact>, off: nat)
    requires count <= MAX_CONTACTS && from + CONTACT_LEN * count <= |b|
    ensures off == from + CONTACT_LEN * count
    ensures all == Pad(DecChunks(b, from, CONTACT_LEN, count, DecContact), MAX_CONTACTS, NullContact())
  {
    var contacts := new Contact[MAX_CONTACTS](_ => NullContact());
    off := from;
    for i := 0 to count
      invariant off == from + CONTACT_LEN * i
      invariant contacts[..i] == DecChunks(b, from, CONTACT_LEN, i, DecContact)
      invariant forall j :: i <= j < MAX_CONTACTS ==> contacts[j] == NullContact()
    {
      contacts[i] := DecContact(b[off..][..CONTACT_LEN]);
      off := off + CONTACT_LEN;
    }
    all := contacts[..];
  }

  method ReadContactsV2(b: seq<u8>, from: nat, count: nat) returns (all: seq<Contact>, off: nat)
    requires count <= MAX_CONTACTS && from + CONTACT_LEN_V2 * count <= |b|
    ensures off == from + CONTACT_LEN_V2 * count
    ensures all ==
            Pad<Contact>(DecChunks(b, from, CONTACT_LEN_V2, count, DecContactV2), MAX_CONTACTS, NullContact())
  {
    var contacts := new Contact[MAX_CONTACTS](_ => NullContact());
    off := from;
    for i := 0 to count
      invariant off == from + CONTACT_LEN_V2 * i
      invariant contacts[..i] == DecChunks(b, from, CONTACT_LEN_V2, i, DecContactV2)
      invariant forall j :: i <= j < MAX_CONTACTS ==> contacts[j] == NullContact()
    {
      contacts[i] := DecContactV2(b[off..][..CONTACT_LEN_V2]);
      off := off + CONTACT_LEN_V2;
    }
    all := contacts[..];
  }

  method ReadChannels(b: seq<u8>, from: nat, count: nat) returns (all: seq<Channel>, off: nat)
    requires count <= MAX_CHANNELS && from + CHANNEL_LEN * count <= |b|
    ensures off == from + CHANNEL_LEN * count
    ensures all == Pad(DecChunks(b, from, CHANNEL_LEN, count, DecChannel), MAX_CHANNELS, NullChannel())
  {
    var channels := new Channel[MAX_CHANNELS](_ => NullChannel());
    off := from;
    for i := 0 to count
      invariant off == from + CHANNEL_LEN * i
      invariant channels[..i] == DecChunks(b, from, CHANNEL_LEN, i, DecChannel)
      invariant forall j :: i <= j < MAX_CHANNELS ==> channels[j] == NullChannel()
    {
      channels[i] := DecChannel(b[off..][..CHANNEL_LEN]);
      off := off + CHANNEL_LEN;
    }
    all := channels[..];
  }

  /** Gives up at the first room whose password or path length is over its cap. */
  method ReadRooms(b: seq<u8>, from: nat, count: nat) returns (all: Option<seq<RoomExtra>>)
    requires count <= MAX_CONTACTS && from + ROOM_LEN * count <= |b|
    ensures all.Some? <==> AllRoomLengthsOk(DecChunks(b, from, ROOM_LEN, count, DecRoom))
    ensures all.Some? ==> all.value == Pad(DecChunks(b, from, ROOM_LEN, count, DecRoom), MAX_CONTACTS, NullRoom())
  {
    var rooms := new RoomExtra[MAX_CONTACTS](_ => NullRoom());
    var off := from;
    for i := 0 to count
      invariant off == from + ROOM_LEN * i
      invariant rooms[..i] == DecChunks(b, from, ROOM_LEN, i, DecRoom)
      invariant AllRoomLengthsOk(rooms[..i])
      invariant forall j :: i <= j < MAX_CONTACTS ==> rooms[j] == NullRoom()
    {
      var r := DecRoom(b[off..][..ROOM_LEN]);
      if r.passwordLen > MAX_LOGIN_PASSWORD_LEN || r.outPathLen > MAX_PATH_SIZE {
        RoomAt(b, from, count, i);
        assert !RoomLengthsOk(DecChunks(b, from, ROOM_LEN, count, DecRoom)[i]);
        return None;
      }
      rooms[i] := r;
      off := off + ROOM_LEN;
    }
    all := Some(rooms[..]);
  }

  lemma {:induction false} RoomAt(b: seq<u8>, off: nat, n: nat, i: nat)
    requires i < n && off + ROOM_LEN * n <= |b|
    ensures DecChunks(b, off, ROOM_LEN, n, DecRoom)[i] == DecRoom(b[off + ROOM_LEN * i..][..ROOM_LEN])
  {
    if i < n - 1 {
      RoomAt(b, off, n - 1, i);
    }
  }

  method CheckCounts(b: seq<u8>) returns (ok: bool)
    ensures ok == CountsFitV3(b)
  {
    if |b| < HEADER_LEN {
      return false;
    }
    var contactCount, channelCount, roomCount := b[1], b[2], b[31];
    if contactCount > MAX_CONTACTS || channelCount > MAX_CHANNELS || roomCount > MAX_CONTACTS {
      return false;
    }
    if roomCount > contactCount {
      return false;
    }
    var required := HEADER_LEN + contactCount * CONTACT_LEN + channelCount * CHANNEL_LEN + roomCount * ROOM_LEN;
    ok := |b| >= required;
  }

  method DeserializeV3(b: seq<u8>) returns (r: Option<Image>)
    ensures r == DecodeV3(b)
  {
    var fits := CheckCounts(b);
    if !fits {
      return None;
    }
    var contacts, channelsAt := ReadContacts(b, HEADER_LEN, b[1]);
    assert channelsAt == ChannelsAt(b);
    var channels, roomsAt := ReadChannels(b, channelsAt, b[2]);
    assert roomsAt == RoomsAt(b);
    var rooms := ReadRooms(b, roomsAt, b[31]);
    if rooms.None? {
      return None;
    }
    r := Some(Fields(contacts, b[1], channels, b[2], rooms.value, b[31], DecSettings(b)));
  }

  method CheckCountsV2(b: seq<u8>) returns (ok: bool)
    ensures ok == CountsFitV2(b)
  {
    if |b| < HEADER_LEN_V2 {
      return false;
    }
    var contactCount, channelCount := b[1], b[2];
    if contactCount > MAX_CONTACTS || channelCount > MAX_CHANNELS {
      return false;
    }
    ok := |b| >= HEADER_LEN_V2 + contactCount * CONTACT_LEN_V2 + channelCount * CHANNEL_LEN;
  }

  method DeserializeV2Migrate(b: seq<u8>) returns (r: Option<Image>)
    ensures r == DecodeV2(b)
  {
    var fits := CheckCountsV2(b);
    if !fits {
      return None;
    }
    var contacts, channelsAt := ReadContactsV2(b, HEADER_LEN_V2, b[1]);
    assert channelsAt == ChannelsAtV2(b);
    var channels, _ := ReadChannels(b, channelsAt, b[2]);
    r := Some(Fields(contacts, b[1], channels, b[2], Pad([], MAX_CONTACTS, NullRoom()), 0, DecSettings(b)));
  }

  method DeserializeConfig(b: seq<u8>) returns (r: Option<Image>)
    ensures r == Decode(b)
  {
    if |b| == 0 {
      r := None;
    } else if b[0] == CFG_VERSION {
      r := DeserializeV3(b);
    } else if b[0] == CFG_VERSION_V2 {
      r := DeserializeV2Migrate(b);
    } else {
      r := None;
    }
  }
}
