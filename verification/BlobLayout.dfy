/** The configuration blob byte by byte: which blobs are accepted, and which byte ends up in which field. */
module BlobLayout {
  import opened Words
  import opened Bytes
  import opened Config
  import opened ConfigStore
  import opened ConfigCodec

  /** The little-endian word at `at`. */
  function Word(b: seq<u8>, at: nat): int
    requires at + 4 <= |b|
  {
    var b0: int, b1: int, b2: int, b3: int := b[at], b[at + 1], b[at + 2], b[at + 3];
    b0 + 0x100 * (b1 + 0x100 * (b2 + 0x100 * b3))
  }

  /** Entry `i` is read from `len` bytes at `off + len * i`. */
  lemma {:induction false} ChunkDecoded<T>(b: seq<u8>, off: nat, len: nat, n: nat, dec: seq<u8> -> T, i: nat, at: nat)
    requires i < n && off + len * n <= |b| && at == off + len * i
    ensures at + len <= |b| && DecChunks(b, off, len, n, dec)[i] == dec(b[at..][..len])
  {
    assert len * n == len * (n - 1) + len;
    if i < n - 1 {
      ChunkDecoded(b, off, len, n - 1, dec, i, at);
    }
  }

  lemma SliceOfChunk(b: seq<u8>, at: nat, len: nat, lo: nat, hi: nat)
    requires at + len <= |b| && lo <= hi <= len
    ensures b[at..][..len][lo..hi] == b[at + lo..at + hi]
  {
  }

  /** The header of either version; the frequency is little-endian. */
  lemma HeaderFields(b: seq<u8>, img: Image)
    requires Decode(b) == Some(img)
    ensures |b| >= 31 && img.contactCount == b[1] && img.channelCount == b[2]
    ensures b[0] == 2 || (b[0] == 3 && |b| >= 32)
    ensures img.roomCount == if b[0] == 3 then b[31] else 0
    ensures var s := img.settings;
            && s.lockFlags == b[3] && s.pinLen == b[4] && s.pin == b[5..21]
            && (s.notifVisual <==> b[21] != 0) && (s.notifAudible <==> b[22] != 0)
            && s.radio.bwCode == b[27] && s.radio.sf == b[28] && s.radio.cr == b[29] && s.radio.txPowerDbm == b[30]
            && s.radio.freqHz == Word(b, 23)
  {
  }

  // ── The entries ────────────────────────────────────────────────────────────

  predicate ContactLiesAt(b: seq<u8>, at: nat, c: Contact) {
    && at + 67 <= |b|
    && c.pubkey == b[at..at + 32] && (c.telemetry <==> b[at + 32] != 0) && c.role == b[at + 33]
    && c.nameLen == b[at + 34] && c.name == b[at + 35..at + 67]
  }

  /** Version 2 stored no role. */
  predicate ContactLiesAtV2(b: seq<u8>, at: nat, c: Contact) {
    && at + 66 <= |b|
    && c.pubkey == b[at..at + 32] && (c.telemetry <==> b[at + 32] != 0) && c.role == 0
    && c.nameLen == b[at + 33] && c.name == b[at + 34..at + 66]
  }

  predicate ChannelLiesAt(b: seq<u8>, at: nat, ch: Channel) {
    && at + 67 <= |b|
    && ch.secret == b[at..at + 32] && ch.keyLen == b[at + 32] && (ch.primary <==> b[at + 33] != 0)
    && ch.nameLen == b[at + 34] && ch.name == b[at + 35..at + 67]
  }

  predicate RoomLiesAt(b: seq<u8>, at: nat, r: RoomExtra) {
    && at + 119 <= |b|
    && r.pubkey == b[at..at + 32] && r.passwordLen == b[at + 32] && r.password == b[at + 33..at + 49]
    && r.syncSince == Word(b, at + 49) && r.permissions == b[at + 53]
    && r.outPathLen == b[at + 54] && r.outPath == b[at + 55..at + 119]
  }

  lemma ContactFields(b: seq<u8>, img: Image, i: nat)
    requires Decode(b) == Some(img) && b[0] == 3 && i < img.contactCount
    ensures ContactLiesAt(b, 32 + 67 * i, img.contacts[i])
  {
    ContactsRead(b, img);
    ContactDecoded(b, img.contactCount, i);
    assert img.contacts[i] == img.contacts[..img.contactCount][i];
  }

  lemma ContactsRead(b: seq<u8>, img: Image)
    requires Decode(b) == Some(img) && b[0] == 3
    ensures 32 + 67 * img.contactCount <= |b|
    ensures img.contacts[..img.contactCount] == DecChunks(b, 32, 67, img.contactCount, DecContact)
  {
  }

  lemma ContactDecoded(b: seq<u8>, n: nat, i: nat)
    requires i < n && 32 + 67 * n <= |b|
    ensures ContactLiesAt(b, 32 + 67 * i, DecChunks(b, 32, 67, n, DecContact)[i])
  {
    ChunkDecoded(b, 32, 67, n, DecContact, i, 32 + 67 * i);
    SliceOfChunk(b, 32 + 67 * i, 67, 0, 32);
    SliceOfChunk(b, 32 + 67 * i, 67, 35, 67);
  }

  lemma ContactFieldsV2(b: seq<u8>, img: Image, i: nat)
    requires Decode(b) == Some(img) && b[0] == 2 && i < img.contactCount
    ensures ContactLiesAtV2(b, 31 + 66 * i, img.contacts[i])
  {
    ContactsReadV2(b, img);
    ContactDecodedV2(b, img.contactCount, i);
    assert img.contacts[i] == img.contacts[..img.contactCount][i];
  }

  lemma ContactsReadV2(b: seq<u8>, img: Image)
    requires Decode(b) == Some(img) && b[0] == 2
    ensures 31 + 66 * img.contactCount <= |b|
    ensures img.contacts[..img.contactCount] == DecChunks(b, 31, 66, img.contactCount, DecContactV2)
  {
  }

  lemma ContactDecodedV2(b: seq<u8>, n: nat, i: nat)
    requires i < n && 31 + 66 * n <= |b|
    ensures ContactLiesAtV2(b, 31 + 66 * i, DecChunks(b, 31, 66, n, DecContactV2)[i])
  {
    ChunkDecoded(b, 31, 66, n, DecContactV2, i, 31 + 66 * i);
    SliceOfChunk(b, 31 + 66 * i, 66, 0, 32);
    SliceOfChunk(b, 31 + 66 * i, 66, 34, 66);
  }

  /** The channels follow the contacts. */
  lemma ChannelFields(b: seq<u8>, img: Image, i: nat, from: nat)
    requires Decode(b) == Some(img) && i < img.channelCount
    requires from == if b[0] == 3 then 32 + 67 * img.contactCount else 31 + 66 * img.contactCount
    ensures ChannelLiesAt(b, from + 67 * i, img.channels[i])
  {
    ChannelsRead(b, img, from);
    ChannelDecoded(b, from, img.channelCount, i);
    assert img.channels[i] == img.channels[..img.channelCount][i];
  }

  lemma ChannelsRead(b: seq<u8>, img: Image, from: nat)
    requires Decode(b) == Some(img)
    requires from == if b[0] == 3 then 32 + 67 * img.contactCount else 31 + 66 * img.contactCount
    ensures from + 67 * img.channelCount <= |b|
    ensures img.channels[..img.channelCount] == DecChunks(b, from, 67, img.channelCount, DecChannel)
  {
  }

  lemma ChannelDecoded(b: seq<u8>, from: nat, n: nat, i: nat)
    requires i < n && from + 67 * n <= |b|
    ensures ChannelLiesAt(b, from + 67 * i, DecChunks(b, from, 67, n, DecChannel)[i])
  {
    ChunkDecoded(b, from, 67, n, DecChannel, i, from + 67 * i);
    SliceOfChunk(b, from + 67 * i, 67, 0, 32);
    SliceOfChunk(b, from + 67 * i, 67, 35, 67);
  }

  /** The rooms follow the channels. */
  lemma RoomFields(b: seq<u8>, img: Image, i: nat, from: nat)
    requires Decode(b) == Some(img) && i < img.roomCount
    requires from == 32 + 67 * img.contactCount + 67 * img.channelCount
    ensures RoomLiesAt(b, from + 119 * i, img.rooms[i])
  {
    RoomsRead(b, img, from);
    RoomDecoded(b, from, img.roomCount, i);
    assert img.rooms[i] == img.rooms[..img.roomCount][i];
  }

  lemma RoomsRead(b: seq<u8>, img: Image, from: nat)
    requires Decode(b) == Some(img) && img.roomCount > 0
    requires from == 32 + 67 * img.contactCount + 67 * img.channelCount
    ensures from + 119 * img.roomCount <= |b|
    ensures img.rooms[..img.roomCount] == DecChunks(b, from, 119, img.roomCount, DecRoom)
  {
  }

  lemma RoomDecoded(b: seq<u8>, from: nat, n: nat, i: nat)
    requires i < n && from + 119 * n <= |b|
    ensures RoomLiesAt(b, from + 119 * i, DecChunks(b, from, 119, n, DecRoom)[i])
  {
    var at := from + 119 * i;
    ChunkDecoded(b, from, 119, n, DecRoom, i, at);
    SliceOfChunk(b, at, 119, 0, 32);
    SliceOfChunk(b, at, 119, 33, 49);
    SliceOfChunk(b, at, 119, 49, 53);
    SliceOfChunk(b, at, 119, 55, 119);
  }

  /** Behind the live entries the reader leaves blank ones. */
  lemma BlankBehindLive(b: seq<u8>, img: Image, i: nat)
    requires Decode(b) == Some(img)
    ensures img.contactCount <= i < 16 ==>
              var c := img.contacts[i];
              AllZero(c.pubkey) && !c.telemetry && c.role == 0 && AllZero(c.name) && c.nameLen == 0
    ensures img.channelCount <= i < 8 ==>
              var ch := img.channels[i];
              AllZero(ch.secret) && ch.keyLen == 32 && !ch.primary && AllZero(ch.name) && ch.nameLen == 0
    ensures img.roomCount <= i < 16 ==>
              var r := img.rooms[i];
              && AllZero(r.pubkey) && AllZero(r.password) && r.passwordLen == 0 && r.syncSince == 0
              && r.permissions == 0 && AllZero(r.outPath) && r.outPathLen == 0
  {
    AcceptedIsBlanked(b);
    BlankedBehind(img, i);
  }

  lemma BlankedBehind(img: Image, i: nat)
    requires Blanked(img) == img
    ensures img.contactCount <= i < 16 ==> img.contacts[i] == NullContact()
    ensures img.channelCount <= i < 8 ==> img.channels[i] == NullChannel()
    ensures img.roomCount <= i < 16 ==> img.rooms[i] == NullRoom()
  {
  }

  predicate AllZero(b: seq<u8>) {
    forall k :: 0 <= k < |b| ==> b[k] == 0
  }

  // ── What a reader lets through ─────────────────────────────────────────────

  /** The password and the path of the `i`th room are within their caps. */
  predicate LengthsFit(b: seq<u8>, off: nat, i: nat)
    requires off + 119 * (i + 1) <= |b|
  {
    b[off + 119 * i + 32] <= 16 && b[off + 119 * i + 54] <= 64
  }

  predicate AllLengthsFit(b: seq<u8>, off: nat, n: nat)
    requires off + 119 * n <= |b|
  {
    forall i :: 0 <= i < n ==> LengthsFit(b, off, i)
  }

  /** Whether a blob is accepted depends on its version, its counts, its length and two bytes of each room. */
  lemma AcceptedIff(b: seq<u8>)
    ensures Decode(b).Some? <==>
            b != [] &&
            if b[0] == 3 then
              && |b| >= 32
              && var contacts: int, channels: int, rooms: int := b[1], b[2], b[31];
                 && contacts <= 16 && channels <= 8 && rooms <= contacts
                 && |b| >= 32 + 67 * contacts + 67 * channels + 119 * rooms
                 && AllLengthsFit(b, 32 + 67 * contacts + 67 * channels, rooms)
            else
              && b[0] == 2 && |b| >= 31
              && var contacts: int, channels: int := b[1], b[2];
                 contacts <= 16 && channels <= 8 && |b| >= 31 + 66 * contacts + 67 * channels
  {
    if CountsFitV3(b) {
      RoomsFitIff(b, RoomsAt(b), b[31]);
    }
  }

  lemma RoomsFitIff(b: seq<u8>, off: nat, n: nat)
    requires off + 119 * n <= |b|
    ensures AllRoomLengthsOk(DecChunks(b, off, 119, n, DecRoom)) <==> AllLengthsFit(b, off, n)
  {
    var rs := DecChunks(b, off, 119, n, DecRoom);
    forall i | 0 <= i < n
      ensures RoomLengthsOk(rs[i]) <==> LengthsFit(b, off, i)
    {
      RoomDecoded(b, off, n, i);
    }
  }
}
