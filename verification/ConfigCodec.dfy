/**
 * The versioned configuration blob: the in-place writer, the reader with its migration from version 2, and the
 * proof that what is written is what is read back.
 */
module ConfigCodec {
  import opened Words
  import opened Bytes
  import opened KeyedList
  import opened Config
  import opened ConfigEdits
  import opened ConfigStore

  const CFG_VERSION: u8 := 3
  const CFG_VERSION_V2: u8 := 2
  const HEADER_LEN := 32
  const HEADER_LEN_V2 := 31
  const CONTACT_LEN := 67
  const CONTACT_LEN_V2 := 66
  const CHANNEL_LEN := 67
  const ROOM_LEN := 119
  const MAX_BLOB_LEN := 3_544

  /** The struct as a value: full arrays and counts. */
  datatype Fields = Fields(contacts: seq<Contact>, contactCount: nat, channels: seq<Channel>, channelCount: nat,
                           rooms: seq<RoomExtra>, roomCount: nat, settings: Settings)

  predicate InShape(img: Fields) {
    && |img.contacts| == |img.rooms| == MAX_CONTACTS && |img.channels| == MAX_CHANNELS
    && img.contactCount <= MAX_CONTACTS && img.channelCount <= MAX_CHANNELS && img.roomCount <= MAX_CONTACTS
  }

  type Image = img: Fields | InShape(img)
    witness Fields(seq(16, _ => NullContact()), 0, seq(8, _ => NullChannel()), 0, seq(16, _ => NullRoom()), 0,
                   DEFAULT_SETTINGS)

  // ── Words and chunks ───────────────────────────────────────────────────────

  /** The encodings one after the other. */
  function Flat<T>(xs: seq<T>, enc: T -> seq<u8>): seq<u8> {
    if xs == [] then [] else Flat(xs[..|xs| - 1], enc) + enc(xs[|xs| - 1])
  }

  /** Every value has an encoding of `len` bytes that is read back as that value. */
  ghost predicate Lawful<T(!new)>(enc: T -> seq<u8>, dec: seq<u8> -> T, len: nat) {
    forall x :: |enc(x)| == len && dec(enc(x)) == x
  }

  /** The `n` entries of `len` bytes each that begin at `off`. */
  function DecChunks<T>(b: seq<u8>, off: nat, len: nat, n: nat, dec: seq<u8> -> T): (out: seq<T>)
    requires off + len * n <= |b|
    ensures |out| == n
  {
    if n == 0 then []
    else
      assert len * n == len * (n - 1) + len;
      DecChunks(b, off, len, n - 1, dec) + [dec(b[off + len * (n - 1)..][..len])]
  }

  lemma {:induction false} FlatLength<T(!new)>(xs: seq<T>, enc: T -> seq<u8>, dec: seq<u8> -> T, len: nat)
    requires Lawful(enc, dec, len)
    ensures |Flat(xs, enc)| == len * |xs|
  {
    if xs != [] {
      FlatLength(xs[..|xs| - 1], enc, dec, len);
      assert len * |xs| == len * (|xs| - 1) + len;
    }
  }

  /** Entries written one after the other are read back from where they lie. */
  lemma {:induction false} ChunksRoundTrip<T(!new)>(b: seq<u8>, off: nat, xs: seq<T>, enc: T -> seq<u8>,
                                                    dec: seq<u8> -> T, len: nat)
    requires Lawful(enc, dec, len)
    requires off + len * |xs| <= |b| && b[off..][..len * |xs|] == Flat(xs, enc)
    ensures DecChunks(b, off, len, |xs|, dec) == xs
  {
    if xs != [] {
      var n := |xs| - 1;
      assert len * |xs| == len * n + len;
      FlatLength(xs[..n], enc, dec, len);
      var all := b[off..][..len * |xs|];
      assert b[off..][..len * n] == all[..len * n] == Flat(xs[..n], enc);
      ChunksRoundTrip(b, off, xs[..n], enc, dec, len);
      assert b[off + len * n..][..len] == all[len * n..] == enc(xs[n]);
    }
  }

  /** Encodings written at the end of `before` are read back from there, whatever follows. */
  lemma ChunksInPlace<T(!new)>(before: seq<u8>, xs: seq<T>, after: seq<u8>, enc: T -> seq<u8>,
                               dec: seq<u8> -> T, len: nat)
    requires Lawful(enc, dec, len)
    ensures |before + Flat(xs, enc) + after| >= |before| + len * |xs|
    ensures DecChunks(before + Flat(xs, enc) + after, |before|, len, |xs|, dec) == xs
  {
    FlatLength(xs, enc, dec, len);
    ChunksRoundTrip(before + Flat(xs, enc) + after, |before|, xs, enc, dec, len);
  }

  lemma ConcatAssociates(a: seq<u8>, b: seq<u8>, c: seq<u8>, d: seq<u8>, e: seq<u8>)
    ensures a + b + c + d + e == a + b + (c + d + e) == a + b + c + (d + e)
  {
  }

  // ── Entries: the readers are total, and are given chunks of the length they expect ──

  function EncContact(c: Contact): seq<u8> {
    c.pubkey + [BoolByte(c.telemetry), c.role, c.nameLen] + c.name
  }

  function DecContact(b: seq<u8>): Contact {
    if |b| != CONTACT_LEN then NullContact() else Contact(b[..32], b[32] != 0, b[33], b[35..67], b[34])
  }

  /** Version 2 knew no roles: every contact was a chat contact. */
  type ChatContact = c: Contact | c.role == ROLE_CHAT witness NullContact()

  function EncContactV2(c: ChatContact): seq<u8> {
    c.pubkey + [BoolByte(c.telemetry), c.nameLen] + c.name
  }

  function DecContactV2(b: seq<u8>): ChatContact {
    if |b| != CONTACT_LEN_V2 then NullContact() else Contact(b[..32], b[32] != 0, ROLE_CHAT, b[34..66], b[33])
  }

  function EncChannel(ch: Channel): seq<u8> {
    ch.secret + [ch.keyLen, BoolByte(ch.primary), ch.nameLen] + ch.name
  }

  function DecChannel(b: seq<u8>): Channel {
    if |b| != CHANNEL_LEN then NullChannel() else Channel(b[..32], b[32], b[33] != 0, b[35..67], b[34])
  }

  function EncRoom(r: RoomExtra): seq<u8> {
    r.pubkey + [r.passwordLen] + r.password + Le32(r.syncSince) + [r.permissions, r.outPathLen] + r.outPath
  }

  function DecRoom(b: seq<u8>): RoomExtra {
    if |b| != ROOM_LEN then NullRoom()
    else RoomExtra(b[..32], b[33..49], b[32], FromLe32(b[49..53]), b[53], b[55..119], b[54])
  }

  lemma ContactsLawful()
    ensures Lawful(EncContact, DecContact, CONTACT_LEN)
  {
  }

  lemma ContactsV2Lawful()
    ensures Lawful(EncContactV2, DecContactV2, CONTACT_LEN_V2)
  {
  }

  lemma ChannelsLawful()
    ensures Lawful(EncChannel, DecChannel, CHANNEL_LEN)
  {
  }

  lemma RoomsLawful()
    ensures Lawful(EncRoom, DecRoom, ROOM_LEN)
  {
    forall r: RoomExtra
      ensures |EncRoom(r)| == ROOM_LEN && DecRoom(EncRoom(r)) == r
    {
      RoomRoundTrip(r);
    }
  }

  lemma RoomRoundTrip(r: RoomExtra)
    ensures |EncRoom(r)| == ROOM_LEN && DecRoom(EncRoom(r)) == r
  {
    Le32RoundTrip(r.syncSince);
    var b := EncRoom(r);
    assert b[49..53] == Le32(r.syncSince);
    assert b[33..49] == r.password;
    assert b[55..119] == r.outPath;
  }

  // ── The header ─────────────────────────────────────────────────────────────

  /** Bytes 0 to 30, laid out alike in both versions. */
  function EncHeader(version: u8, img: Image): (b: seq<u8>)
    ensures |b| == HEADER_LEN_V2
  {
    [version, img.contactCount, img.channelCount, img.settings.lockFlags, img.settings.pinLen] + img.settings.pin
    + [BoolByte(img.settings.notifVisual), BoolByte(img.settings.notifAudible)] + EncRadio(img.settings.radio)
  }

  function EncRadio(r: RadioPreset): seq<u8> {
    Le32(r.freqHz) + [r.bwCode, r.sf, r.cr, r.txPowerDbm]
  }

  function DecSettings(b: seq<u8>): Settings
    requires |b| >= HEADER_LEN_V2
  {
    Settings(RadioPreset(FromLe32(b[23..27]), b[27], b[28], b[29], b[30]), b[21] != 0, b[22] != 0, b[5..21], b[4],
             b[3])
  }

  lemma HeaderRoundTrip(version: u8, img: Image, rest: seq<u8>)
    ensures var b := EncHeader(version, img) + rest;
            && b[0] == version && b[1] == img.contactCount && b[2] == img.channelCount
            && DecSettings(b) == img.settings
  {
    var s := img.settings;
    Le32RoundTrip(s.radio.freqHz);
    var b := EncHeader(version, img) + rest;
    assert b[5..21] == s.pin;
    assert b[23..27] == Le32(s.radio.freqHz);
  }

  // ── The blob ───────────────────────────────────────────────────────────────

  function Encode(img: Image): seq<u8> {
    EncHeader(CFG_VERSION, img) + [img.roomCount]
    + Flat(img.contacts[..img.contactCount], EncContact)
    + Flat(img.channels[..img.channelCount], EncChannel)
    + Flat(img.rooms[..img.roomCount], EncRoom)
  }

  predicate AllChat(img: Image) {
    forall i :: 0 <= i < img.contactCount ==> img.contacts[i].role == ROLE_CHAT
  }

  /** What firmware from before the room servers wrote. */
  function EncodeV2(img: Image): seq<u8>
    requires AllChat(img)
  {
    EncHeader(CFG_VERSION_V2, img)
    + Flat<ChatContact>(img.contacts[..img.contactCount], EncContactV2)
    + Flat(img.channels[..img.channelCount], EncChannel)
  }

  function Pad<T>(xs: seq<T>, n: nat, filler: T): (out: seq<T>)
    requires |xs| <= n
    ensures |out| == n && out[..|xs|] == xs
  {
    xs + seq(n - |xs|, _ => filler)
  }

  predicate RoomLengthsOk(r: RoomExtra) {
    r.passwordLen <= MAX_LOGIN_PASSWORD_LEN && r.outPathLen <= MAX_PATH_SIZE
  }

  predicate AllRoomLengthsOk(rs: seq<RoomExtra>) {
    forall i :: 0 <= i < |rs| ==> RoomLengthsOk(rs[i])
  }

  function Decode(b: seq<u8>): Option<Image> {
    if b == [] then None
    else if b[0] == CFG_VERSION then DecodeV3(b)
    else if b[0] == CFG_VERSION_V2 then DecodeV2(b)
    else None
  }

  /** Where the channels and the rooms of a version 3 blob begin, by its count bytes. */
  function ChannelsAt(b: seq<u8>): nat
    requires |b| >= HEADER_LEN
  {
    HEADER_LEN + CONTACT_LEN * b[1]
  }

  function RoomsAt(b: seq<u8>): nat
    requires |b| >= HEADER_LEN
  {
    ChannelsAt(b) + CHANNEL_LEN * b[2]
  }

  predicate CountsFitV3(b: seq<u8>) {
    && |b| >= HEADER_LEN
    && b[1] <= MAX_CONTACTS && b[2] <= MAX_CHANNELS && b[31] <= MAX_CONTACTS
    && b[31] <= b[1]
    && |b| >= RoomsAt(b) + ROOM_LEN * b[31]
  }

  function DecodeV3(b: seq<u8>): Option<Image> {
    if !CountsFitV3(b) || !AllRoomLengthsOk(DecChunks(b, RoomsAt(b), ROOM_LEN, b[31], DecRoom)) then None
    else
      Some(Fields(Pad(DecChunks(b, HEADER_LEN, CONTACT_LEN, b[1], DecContact), MAX_CONTACTS, NullContact()), b[1],
                  Pad(DecChunks(b, ChannelsAt(b), CHANNEL_LEN, b[2], DecChannel), MAX_CHANNELS, NullChannel()), b[2],
                  Pad(DecChunks(b, RoomsAt(b), ROOM_LEN, b[31], DecRoom), MAX_CONTACTS, NullRoom()), b[31],
                  DecSettings(b)))
  }

  function ChannelsAtV2(b: seq<u8>): nat
    requires |b| >= HEADER_LEN_V2
  {
    HEADER_LEN_V2 + CONTACT_LEN_V2 * b[1]
  }

  predicate CountsFitV2(b: seq<u8>) {
    && |b| >= HEADER_LEN_V2
    && b[1] <= MAX_CONTACTS && b[2] <= MAX_CHANNELS
    && |b| >= ChannelsAtV2(b) + CHANNEL_LEN * b[2]
  }

  function DecodeV2(b: seq<u8>): Option<Image> {
    if !CountsFitV2(b) then None
    else
      Some(Fields(Pad(DecChunks(b, HEADER_LEN_V2, CONTACT_LEN_V2, b[1], DecContactV2), MAX_CONTACTS, NullContact()),
                  b[1],
                  Pad(DecChunks(b, ChannelsAtV2(b), CHANNEL_LEN, b[2], DecChannel), MAX_CHANNELS, NullChannel()), b[2],
                  Pad([], MAX_CONTACTS, NullRoom()), 0, DecSettings(b)))
  }

  // ── Round trips ────────────────────────────────────────────────────────────

  /** The live prefixes with every unused slot nulled. */
  function Blanked(img: Image): (out: Fields)
    ensures InShape(out)
  {
    Fields(Pad(img.contacts[..img.contactCount], MAX_CONTACTS, NullContact()), img.contactCount,
           Pad(img.channels[..img.channelCount], MAX_CHANNELS, NullChannel()), img.channelCount,
           Pad(img.rooms[..img.roomCount], MAX_CONTACTS, NullRoom()), img.roomCount, img.settings)
  }

  predicate WellFormed(img: Image) {
    img.roomCount <= img.contactCount && AllRoomLengthsOk(img.rooms[..img.roomCount])
  }

  lemma EncodeLength(img: Image)
    ensures |Encode(img)| ==
            HEADER_LEN + CONTACT_LEN * img.contactCount + CHANNEL_LEN * img.channelCount + ROOM_LEN * img.roomCount
    ensures |Encode(img)| <= MAX_BLOB_LEN
  {
    ContactsLength(img.contacts[..img.contactCount]);
    ChannelsLength(img.channels[..img.channelCount]);
    RoomsLength(img.rooms[..img.roomCount]);
  }

  lemma ContactsLength(cs: seq<Contact>)
    ensures |Flat(cs, EncContact)| == CONTACT_LEN * |cs|
  {
    ContactsLawful();
    FlatLength(cs, EncContact, DecContact, CONTACT_LEN);
  }

  lemma ChannelsLength(chs: seq<Channel>)
    ensures |Flat(chs, EncChannel)| == CHANNEL_LEN * |chs|
  {
    ChannelsLawful();
    FlatLength(chs, EncChannel, DecChannel, CHANNEL_LEN);
  }

  lemma RoomsLength(rs: seq<RoomExtra>)
    ensures |Flat(rs, EncRoom)| == ROOM_LEN * |rs|
  {
    RoomsLawful();
    FlatLength(rs, EncRoom, DecRoom, ROOM_LEN);
  }

  ghost predicate HoldsContacts(b: seq<u8>, off: nat, cs: seq<Contact>) {
    off + CONTACT_LEN * |cs| <= |b| && DecChunks(b, off, CONTACT_LEN, |cs|, DecContact) == cs
  }

  lemma ContactsFound(b: seq<u8>, at: nat, before: seq<u8>, cs: seq<Contact>, after: seq<u8>)
    requires at == |before| && b == before + Flat(cs, EncContact) + after
    ensures HoldsContacts(b, at, cs)
  {
    ContactsLawful();
    ChunksInPlace(before, cs, after, EncContact, DecContact, CONTACT_LEN);
  }

  ghost predicate HoldsChannels(b: seq<u8>, off: nat, chs: seq<Channel>) {
    off + CHANNEL_LEN * |chs| <= |b| && DecChunks(b, off, CHANNEL_LEN, |chs|, DecChannel) == chs
  }

  lemma ChannelsFound(b: seq<u8>, at: nat, before: seq<u8>, chs: seq<Channel>, after: seq<u8>)
    requires at == |before| && b == before + Flat(chs, EncChannel) + after
    ensures HoldsChannels(b, at, chs)
  {
    ChannelsLawful();
    ChunksInPlace(before, chs, after, EncChannel, DecChannel, CHANNEL_LEN);
  }

  ghost predicate HoldsRooms(b: seq<u8>, off: nat, rs: seq<RoomExtra>) {
    off + ROOM_LEN * |rs| <= |b| && DecChunks(b, off, ROOM_LEN, |rs|, DecRoom) == rs
  }

  lemma RoomsFound(b: seq<u8>, at: nat, before: seq<u8>, rs: seq<RoomExtra>, after: seq<u8>)
    requires at == |before| && b == before + Flat(rs, EncRoom) + after
    ensures HoldsRooms(b, at, rs)
  {
    RoomsLawful();
    ChunksInPlace(before, rs, after, EncRoom, DecRoom, ROOM_LEN);
  }

  /**
   * Whatever follows it, a written blob is read back as the live configuration when that is well formed, and is
   * refused when it is not.
   */
  lemma RoundTrip(img: Image, junk: seq<u8>)
    ensures Decode(Encode(img) + junk) == if WellFormed(img) then Some(Blanked(img)) else None
  {
    HeaderInPlace(img, junk);
    EntriesInPlace(Encode(img) + junk, EncHeader(CFG_VERSION, img) + [img.roomCount], img.contacts[..img.contactCount],
                   img.channels[..img.channelCount], img.rooms[..img.roomCount], junk);
    DecodedFrom(Encode(img) + junk, img);
  }

  /** Each list of entries is read back from where the counts put it. */
  ghost predicate HoldsEntries(b: seq<u8>, cs: seq<Contact>, chs: seq<Channel>, rs: seq<RoomExtra>) {
    var channelsAt := HEADER_LEN + CONTACT_LEN * |cs|;
    var roomsAt := channelsAt + CHANNEL_LEN * |chs|;
    && HoldsContacts(b, HEADER_LEN, cs)
    && HoldsChannels(b, channelsAt, chs)
    && HoldsRooms(b, roomsAt, rs)
  }

  lemma DecodedFrom(b: seq<u8>, img: Image)
    requires HoldsEntries(b, img.contacts[..img.contactCount], img.channels[..img.channelCount],
                          img.rooms[..img.roomCount])
    requires b[0] == CFG_VERSION && b[1] == img.contactCount && b[2] == img.channelCount && b[31] == img.roomCount
    requires DecSettings(b) == img.settings
    ensures Decode(b) == if WellFormed(img) then Some(Blanked(img)) else None
  {
    assert ChannelsAt(b) == HEADER_LEN + CONTACT_LEN * img.contactCount;
    assert RoomsAt(b) == ChannelsAt(b) + CHANNEL_LEN * img.channelCount;
    assert CountsFitV3(b) <==> img.roomCount <= img.contactCount;
  }

  lemma HeaderInPlace(img: Image, junk: seq<u8>)
    ensures var b := Encode(img) + junk;
            && |b| >= HEADER_LEN + CONTACT_LEN * img.contactCount + CHANNEL_LEN * img.channelCount
                      + ROOM_LEN * img.roomCount
            && b[0] == CFG_VERSION && b[1] == img.contactCount && b[2] == img.channelCount && b[31] == img.roomCount
            && DecSettings(b) == img.settings
  {
    EncodeLength(img);
    var b := Encode(img) + junk;
    var rest := b[HEADER_LEN_V2..];
    assert b == EncHeader(CFG_VERSION, img) + rest;
    HeaderRoundTrip(CFG_VERSION, img, rest);
  }

  /** The blob's layout: the header and the three lists behind it, then anything. */
  ghost predicate Laid(b: seq<u8>, header: seq<u8>, cs: seq<Contact>, chs: seq<Channel>, rs: seq<RoomExtra>,
                       junk: seq<u8>)
  {
    b == header + Flat(cs, EncContact) + Flat(chs, EncChannel) + Flat(rs, EncRoom) + junk
  }

  lemma ContactsInPlace(b: seq<u8>, header: seq<u8>, cs: seq<Contact>, chs: seq<Channel>, rs: seq<RoomExtra>,
                        junk: seq<u8>, at: nat)
    requires Laid(b, header, cs, chs, rs, junk)
    requires at == |header|
    ensures HoldsContacts(b, at, cs)
  {
    ConcatAssociates(header, Flat(cs, EncContact), Flat(chs, EncChannel), Flat(rs, EncRoom), junk);
    ContactsFound(b, at, header, cs, Flat(chs, EncChannel) + Flat(rs, EncRoom) + junk);
  }

  lemma ChannelsInPlace(b: seq<u8>, header: seq<u8>, cs: seq<Contact>, chs: seq<Channel>, rs: seq<RoomExtra>,
                        junk: seq<u8>, at: nat)
    requires Laid(b, header, cs, chs, rs, junk)
    requires at == |header| + CONTACT_LEN * |cs|
    ensures HoldsChannels(b, at, chs)
  {
    ConcatAssociates(header, Flat(cs, EncContact), Flat(chs, EncChannel), Flat(rs, EncRoom), junk);
    ContactsLength(cs);
    ChannelsFound(b, at, header + Flat(cs, EncContact), chs, Flat(rs, EncRoom) + junk);
  }

  lemma RoomsInPlace(b: seq<u8>, header: seq<u8>, cs: seq<Contact>, chs: seq<Channel>, rs: seq<RoomExtra>,
                     junk: seq<u8>, at: nat)
    requires Laid(b, header, cs, chs, rs, junk)
    requires at == |header| + CONTACT_LEN * |cs| + CHANNEL_LEN * |chs|
    ensures HoldsRooms(b, at, rs)
  {
    ContactsLength(cs);
    ChannelsLength(chs);
    RoomsFound(b, at, header + Flat(cs, EncContact) + Flat(chs, EncChannel), rs, junk);
  }

  lemma EntriesInPlace(b: seq<u8>, header: seq<u8>, cs: seq<Contact>, chs: seq<Channel>, rs: seq<RoomExtra>,
                       junk: seq<u8>)
    requires |header| == HEADER_LEN && Laid(b, header, cs, chs, rs, junk)
    ensures HoldsEntries(b, cs, chs, rs)
  {
    var channelsAt := HEADER_LEN + CONTACT_LEN * |cs|;
    ContactsInPlace(b, header, cs, chs, rs, junk, HEADER_LEN);
    ChannelsInPlace(b, header, cs, chs, rs, junk, channelsAt);
    RoomsInPlace(b, header, cs, chs, rs, junk, channelsAt + CHANNEL_LEN * |chs|);
  }

  /** A version 2 blob loses nothing: it is read as the configuration it was written from, without rooms. */
  lemma MigrationIsLossless(img: Image, junk: seq<u8>)
    requires img.roomCount == 0 && AllChat(img)
    ensures Decode(EncodeV2(img) + junk) == Some(Blanked(img))
  {
    var cs: seq<ChatContact>, chs := img.contacts[..img.contactCount], img.channels[..img.channelCount];
    var header := EncHeader(CFG_VERSION_V2, img);
    var b := EncodeV2(img) + junk;
    var rest := b[HEADER_LEN_V2..];
    assert b == header + rest;
    HeaderRoundTrip(CFG_VERSION_V2, img, rest);
    assert EncodeV2(img) + [] == EncodeV2(img);
    V2EntriesInPlace(b, header, cs, chs, junk);
    V2DecodedFrom(b, img);
  }

  ghost predicate HoldsV2Entries(b: seq<u8>, cs: seq<Contact>, chs: seq<Channel>) {
    var channelsAt := HEADER_LEN_V2 + CONTACT_LEN_V2 * |cs|;
    && channelsAt <= |b| && DecChunks(b, HEADER_LEN_V2, CONTACT_LEN_V2, |cs|, DecContactV2) == cs
    && HoldsChannels(b, channelsAt, chs)
  }

  lemma V2DecodedFrom(b: seq<u8>, img: Image)
    requires img.roomCount == 0
    requires HoldsV2Entries(b, img.contacts[..img.contactCount], img.channels[..img.channelCount])
    requires b[0] == CFG_VERSION_V2 && b[1] == img.contactCount && b[2] == img.channelCount
    requires DecSettings(b) == img.settings
    ensures Decode(b) == Some(Blanked(img))
  {
    assert img.rooms[..0] == [];
  }

  lemma V2EntriesInPlace(b: seq<u8>, header: seq<u8>, cs: seq<ChatContact>, chs: seq<Channel>, junk: seq<u8>)
    requires |header| == HEADER_LEN_V2
    requires b == header + Flat<ChatContact>(cs, EncContactV2) + Flat(chs, EncChannel) + [] + junk
    ensures HoldsV2Entries(b, cs, chs)
  {
    var c, ch := Flat<ChatContact>(cs, EncContactV2), Flat(chs, EncChannel);
    ConcatAssociates(header, c, ch, [], junk);
    ContactsV2Lawful();
    FlatLength<ChatContact>(cs, EncContactV2, DecContactV2, CONTACT_LEN_V2);
    ChunksInPlace<ChatContact>(header, cs, ch + [] + junk, EncContactV2, DecContactV2, CONTACT_LEN_V2);
    ChannelsFound(b, HEADER_LEN_V2 + CONTACT_LEN_V2 * |cs|, header + c, chs, [] + junk);
  }

  /** Whatever blob of either version was accepted: saving the result and loading it again changes nothing. */
  lemma AcceptedIsStable(b: seq<u8>)
    requires Decode(b).Some?
    ensures Decode(Encode(Decode(b).value)) == Decode(b)
  {
    AcceptedIsBlanked(b);
    RoundTrip(Decode(b).value, []);
    assert Encode(Decode(b).value) + [] == Encode(Decode(b).value);
  }

  lemma AcceptedIsBlanked(b: seq<u8>)
    requires Decode(b).Some?
    ensures WellFormed(Decode(b).value) && Blanked(Decode(b).value) == Decode(b).value
  {
  }

  // ── Reachable configurations survive a reboot ──────────────────────────────

  ghost function LiveLists(img: Image): Lists {
    Lists(img.contacts[..img.contactCount], img.channels[..img.channelCount], img.rooms[..img.roomCount])
  }

  /** The list invariant gives the reader's room check, so only the two length bytes remain to be capped. */
  lemma InvariantSurvivesReload(img: Image, junk: seq<u8>)
    requires Inv(LiveLists(img))
    ensures Decode(Encode(img) + junk) == Some(Blanked(img)) <==> AllRoomLengthsOk(img.rooms[..img.roomCount])
  {
    RoomsWithinContacts(LiveLists(img));
    RoundTrip(img, junk);
  }

  /**
   * A contact was deleted on its own, from any lists, and the configuration saved. It is refused at the next boot
   * exactly when there had been as many rooms as contacts, orphaned ones counted (or a length byte was over its
   * cap). Otherwise it is loaded as it is, and then keeps the list invariant exactly when it had held and the contact
   * was no room.
   */
  lemma DelContactReloadsIff(img: Image, img': Image, pubkey: Bytes32, junk: seq<u8>)
    requires HasKey(LiveLists(img).contacts, ContactKey, pubkey)
    requires LiveLists(img') == AfterDelContact(LiveLists(img), pubkey)
    ensures var ok := AllRoomLengthsOk(img.rooms[..img.roomCount]);
            && (Decode(Encode(img') + junk) == None <==> img.roomCount >= img.contactCount || !ok)
            && (Decode(Encode(img') + junk).Some? ==> Decode(Encode(img') + junk) == Some(Blanked(img')))
    ensures Tidy(LiveLists(img)) ==>
              (Inv(LiveLists(Blanked(img'))) <==> Inv(LiveLists(img)) && !HasKey(LiveLists(img).rooms, RoomKey, pubkey))
  {
    var l, l' := LiveLists(img), LiveLists(img');
    RoundTrip(img', junk);
    if Tidy(l) {
      DelContactKeepsInvIff(l, pubkey);
    }
    assert IndexOf(l.contacts, ContactKey, pubkey) < |l.contacts|;
    assert |l'.contacts| == |l.contacts| - 1 && l'.rooms == l.rooms;
    assert LiveLists(Blanked(img')) == l';
  }

  /** A chat contact beside a room whose contact is then deleted: the blob loads, with the orphaned room inside. */
  lemma OrphanLoadsBesideContact(a: Contact, c: Contact, r: RoomExtra, img: Image, img': Image)
    requires a.pubkey != c.pubkey && RoomLengthsOk(r)
    requires LiveLists(img) == RunOf([OpUpsertContact(a), OpUpsertRoom(c, r)])
    requires LiveLists(img') == AfterDelContact(LiveLists(img), c.pubkey)
    ensures Decode(Encode(img')) == Some(Blanked(img'))
    ensures var l := LiveLists(Blanked(img')); l == Lists([a], [], [r.(pubkey := c.pubkey)]) && !Inv(l)
  {
    var ops := [OpUpsertContact(a), OpUpsertRoom(c, r)];
    ReachableKeepsInv(ops);
    ContactThenRoom(a, c, r);
    assert Encode(img') + [] == Encode(img');
    var l := LiveLists(img);
    IndexOfFirst(l.contacts, ContactKey, c.pubkey, 1);
    assert ContactKey(l.contacts[1]) == c.pubkey && RoomKey(l.rooms[0]) == c.pubkey;
    DelContactReloadsIff(img, img', c.pubkey, []);
    assert img.rooms[..img.roomCount] == l.rooms;
    assert LiveLists(Blanked(img')) == LiveLists(img');
  }

  /**
   * Two rooms beside a chat contact lose their contacts one after the other: the configuration is loaded after the
   * first deletion, and refused after the second, although the chat contact is still in it.
   */
  lemma SecondOrphanRefused(a: Contact, c: Contact, d: Contact, r: RoomExtra, once: Image, twice: Image)
    requires a.pubkey != c.pubkey && c.pubkey != d.pubkey && a.pubkey != d.pubkey && RoomLengthsOk(r)
    requires var l := RunOf([OpUpsertContact(a), OpUpsertRoom(c, r), OpUpsertRoom(d, r)]);
             && LiveLists(once) == AfterDelContact(l, c.pubkey)
             && LiveLists(twice) == AfterDelContact(LiveLists(once), d.pubkey)
    ensures Decode(Encode(once)) == Some(Blanked(once))
    ensures Decode(Encode(twice)) == None && LiveLists(twice).contacts == [a]
  {
    TwoRoomsDeleted(a, c, d, r);
    var rc, rd := r.(pubkey := c.pubkey), r.(pubkey := d.pubkey);
    assert once.rooms[..once.roomCount] == [rc, rd] && |twice.rooms[..twice.roomCount]| == 2;
    assert |once.contacts[..once.contactCount]| == 2 && |twice.contacts[..twice.contactCount]| == 1;
    RoundTrip(once, []);
    RoundTrip(twice, []);
    assert Encode(once) + [] == Encode(once) && Encode(twice) + [] == Encode(twice);
  }

  /** Rooms added and orphaned one after the other, up to the 16 that the arrays hold, are refused when saved. */
  lemma ChurnedRoomsAreRefused(img: Image, cs: seq<Contact>, r: RoomExtra)
    requires Distinct(cs, ContactKey) && cs != []
    requires LiveLists(img) == Churn(cs, r)
    ensures Decode(Encode(img)) == None
  {
    ChurnOutgrowsRooms(cs, r);
    assert |Keys(Churn(cs, r).rooms, RoomKey)| == |cs|;
    RoundTrip(img, []);
    assert Encode(img) + [] == Encode(img);
  }
}
