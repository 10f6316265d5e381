/**
 * What an accepted blob and the configuration read from it have to do with each other: writing the configuration
 * again, in the version it came in, gives back the bytes that were read, with every flag spelled 0 or 1.
 */
module AcceptedBlobs {
  import opened Words
  import opened Arith
  import opened Bytes
  import opened Config
  import opened ConfigStore
  import opened ConfigCodec

  // ── Chunks ─────────────────────────────────────────────────────────────────

  /** Entry `i` of the `len`-byte entries that begin at `off`. */
  function Chunk(b: seq<u8>, off: nat, len: nat, i: nat): seq<u8> {
    if off + len * i + len <= |b| then b[off + len * i..][..len] else []
  }

  function Flag(b: u8): u8 {
    BoolByte(b != 0)
  }

  function RespelledChunk(c: seq<u8>, at: nat): (c': seq<u8>)
    ensures |c'| == |c|
  {
    if at < |c| then c[at := Flag(c[at])] else c
  }

  /** The entries one after the other, each with the flag at `at`, if it reaches so far, spelled 0 or 1. */
  function Respelled(b: seq<u8>, off: nat, len: nat, n: nat, at: nat): seq<u8> {
    if n == 0 then []
    else Respelled(b, off, len, n - 1, at) + RespelledChunk(Chunk(b, off, len, n - 1), at)
  }

  /** In each of the `n` entries the flag is spelled 0 or 1. */
  predicate FlagsSpelled(b: seq<u8>, off: nat, len: nat, n: nat, at: nat) {
    forall i :: 0 <= i < n && at < |Chunk(b, off, len, i)| ==> Chunk(b, off, len, i)[at] <= 1
  }

  lemma ChunkIsSlice(b: seq<u8>, off: nat, len: nat, n: nat, i: nat)
    requires off + len * n <= |b| && i < n
    ensures |Chunk(b, off, len, i)| == len && off + len * i + len <= |b|
    ensures Chunk(b, off, len, i) == b[off + len * i..off + len * i + len]
  {
    ProductOrder(i + 1, n, len);
    assert (i + 1) * len == len * i + len;
  }

  lemma {:induction false} RespelledLength(b: seq<u8>, off: nat, len: nat, n: nat, at: nat)
    requires off + len * n <= |b|
    ensures |Respelled(b, off, len, n, at)| == len * n
  {
    if n > 0 {
      assert len * n == len * (n - 1) + len;
      RespelledLength(b, off, len, n - 1, at);
      ChunkIsSlice(b, off, len, n, n - 1);
    }
  }

  lemma {:induction false} RespelledIsSliceIff(b: seq<u8>, off: nat, len: nat, n: nat, at: nat, end: nat)
    requires end == off + len * n <= |b|
    ensures Respelled(b, off, len, n, at) == b[off..end] <==> FlagsSpelled(b, off, len, n, at)
  {
    if n > 0 {
      var mid := end - len;
      assert mid == off + len * (n - 1);
      RespelledIsSliceIff(b, off, len, n - 1, at, mid);
      RespelledLength(b, off, len, n - 1, at);
      LastChunkDecides(b, Respelled(b, off, len, n - 1, at), Chunk(b, off, len, n - 1), at, off, mid, end);
      OneMoreSpelled(b, off, len, n - 1, at);
    }
  }

  lemma LastChunkDecides(b: seq<u8>, before: seq<u8>, last: seq<u8>, at: nat, off: nat, mid: nat, end: nat)
    requires off <= mid <= end <= |b| && |before| == mid - off && last == b[mid..][..end - mid]
    ensures before + RespelledChunk(last, at) == b[off..end] <==>
            before == b[off..mid] && (at < |last| ==> last[at] <= 1)
  {
    assert last == b[mid..end];
    SplitEquality(before, RespelledChunk(last, at), b, off, mid, end);
    FlagDecides(last, at);
  }

  lemma OneMoreSpelled(b: seq<u8>, off: nat, len: nat, n: nat, at: nat)
    ensures FlagsSpelled(b, off, len, n + 1, at) <==>
            && FlagsSpelled(b, off, len, n, at)
            && (at < |Chunk(b, off, len, n)| ==> Chunk(b, off, len, n)[at] <= 1)
  {
  }

  lemma FlagDecides(c: seq<u8>, at: nat)
    ensures RespelledChunk(c, at) == c <==> (at < |c| ==> c[at] <= 1)
  {
    assert at < |c| ==> RespelledChunk(c, at)[at] == Flag(c[at]);
  }

  lemma SplitEquality(x: seq<u8>, y: seq<u8>, b: seq<u8>, lo: nat, mid: nat, hi: nat)
    requires lo <= mid <= hi <= |b| && |x| == mid - lo && |y| == hi - mid
    ensures x + y == b[lo..hi] <==> x == b[lo..mid] && y == b[mid..hi]
  {
    assert b[lo..hi] == b[lo..mid] + b[mid..hi];
    if x + y == b[lo..hi] {
      assert x == (x + y)[..|x|] && y == (x + y)[|x|..];
    }
  }

  /** Byte by byte: the flag at `at` of entry `i` is spelled 0 or 1, and every other byte is the blob's own. */
  lemma {:induction false} RespelledByte(b: seq<u8>, off: nat, len: nat, n: nat, at: nat, i: nat, j: nat)
    requires off + len * n <= |b| && i < n && j < len
    ensures len * i + j < |Respelled(b, off, len, n, at)| && off + len * i + j < |b|
    ensures Respelled(b, off, len, n, at)[len * i + j] ==
            if j == at then Flag(b[off + len * i + j]) else b[off + len * i + j]
  {
    RespelledLength(b, off, len, n - 1, at);
    ChunkIsSlice(b, off, len, n, i);
    if i < n - 1 {
      assert len * n == len * (n - 1) + len;
      RespelledByte(b, off, len, n - 1, at, i, j);
    }
  }

  ghost predicate EachRespelled<T>(b: seq<u8>, off: nat, len: nat, n: nat, enc: T -> seq<u8>, dec: seq<u8> -> T,
                                   at: nat)
  {
    forall i :: 0 <= i < n ==> enc(dec(Chunk(b, off, len, i))) == RespelledChunk(Chunk(b, off, len, i), at)
  }

  /** Writing the entries that were read respells them all, if it respells each one. */
  lemma {:induction false} ChunksRespelled<T(!new)>(b: seq<u8>, off: nat, n: nat, enc: T -> seq<u8>,
                                                    dec: seq<u8> -> T, len: nat, at: nat)
    requires off + len * n <= |b| && EachRespelled(b, off, len, n, enc, dec, at)
    ensures Flat(DecChunks(b, off, len, n, dec), enc) == Respelled(b, off, len, n, at)
  {
    if n > 0 {
      assert len * n == len * (n - 1) + len;
      ChunksRespelled(b, off, n - 1, enc, dec, len, at);
      var before, last := DecChunks(b, off, len, n - 1, dec), dec(Chunk(b, off, len, n - 1));
      assert DecChunks(b, off, len, n, dec) == before + [last];
      FlatOfMore(before, last, enc);
    }
  }

  lemma FlatOfMore<T>(xs: seq<T>, x: T, enc: T -> seq<u8>)
    ensures Flat(xs + [x], enc) == Flat(xs, enc) + enc(x)
  {
    assert (xs + [x])[..|xs|] == xs;
  }

  // ── Entries ────────────────────────────────────────────────────────────────

  const CONTACT_FLAG := 32
  const CHANNEL_FLAG := 33
  const NO_FLAG := ROOM_LEN

  lemma ContactRespelled(c: seq<u8>)
    requires |c| == CONTACT_LEN
    ensures EncContact(DecContact(c)) == RespelledChunk(c, CONTACT_FLAG)
  {
  }

  lemma ContactV2Respelled(c: seq<u8>)
    requires |c| == CONTACT_LEN_V2
    ensures EncContactV2(DecContactV2(c)) == RespelledChunk(c, CONTACT_FLAG)
  {
  }

  lemma ChannelRespelled(c: seq<u8>)
    requires |c| == CHANNEL_LEN
    ensures EncChannel(DecChannel(c)) == RespelledChunk(c, CHANNEL_FLAG)
  {
  }

  lemma RoomRespelled(c: seq<u8>)
    requires |c| == ROOM_LEN
    ensures EncRoom(DecRoom(c)) == c == RespelledChunk(c, NO_FLAG)
  {
    Le32Inverse(c[49..53]);
  }

  lemma ContactsRespelled(b: seq<u8>, off: nat, n: nat, cs: seq<Contact>)
    requires off + CONTACT_LEN * n <= |b| && cs == DecChunks(b, off, CONTACT_LEN, n, DecContact)
    ensures Flat(cs, EncContact) == Respelled(b, off, CONTACT_LEN, n, CONTACT_FLAG)
  {
    forall i | 0 <= i < n
      ensures var c := Chunk(b, off, CONTACT_LEN, i); EncContact(DecContact(c)) == RespelledChunk(c, CONTACT_FLAG)
    {
      ChunkIsSlice(b, off, CONTACT_LEN, n, i);
      ContactRespelled(Chunk(b, off, CONTACT_LEN, i));
    }
    ChunksRespelled(b, off, n, EncContact, DecContact, CONTACT_LEN, CONTACT_FLAG);
  }

  lemma ContactsV2Respelled(b: seq<u8>, off: nat, n: nat, cs: seq<ChatContact>)
    requires off + CONTACT_LEN_V2 * n <= |b| && cs == DecChunks(b, off, CONTACT_LEN_V2, n, DecContactV2)
    ensures Flat(cs, EncContactV2) == Respelled(b, off, CONTACT_LEN_V2, n, CONTACT_FLAG)
  {
    forall i | 0 <= i < n
      ensures var c := Chunk(b, off, CONTACT_LEN_V2, i); EncContactV2(DecContactV2(c)) == RespelledChunk(c, CONTACT_FLAG)
    {
      ChunkIsSlice(b, off, CONTACT_LEN_V2, n, i);
      ContactV2Respelled(Chunk(b, off, CONTACT_LEN_V2, i));
    }
    ChunksRespelled<ChatContact>(b, off, n, EncContactV2, DecContactV2, CONTACT_LEN_V2, CONTACT_FLAG);
  }

  lemma ChannelsRespelled(b: seq<u8>, off: nat, n: nat, chs: seq<Channel>)
    requires off + CHANNEL_LEN * n <= |b| && chs == DecChunks(b, off, CHANNEL_LEN, n, DecChannel)
    ensures Flat(chs, EncChannel) == Respelled(b, off, CHANNEL_LEN, n, CHANNEL_FLAG)
  {
    forall i | 0 <= i < n
      ensures var c := Chunk(b, off, CHANNEL_LEN, i); EncChannel(DecChannel(c)) == RespelledChunk(c, CHANNEL_FLAG)
    {
      ChunkIsSlice(b, off, CHANNEL_LEN, n, i);
      ChannelRespelled(Chunk(b, off, CHANNEL_LEN, i));
    }
    ChunksRespelled(b, off, n, EncChannel, DecChannel, CHANNEL_LEN, CHANNEL_FLAG);
  }

  lemma RoomsRespelled(b: seq<u8>, off: nat, n: nat, rs: seq<RoomExtra>)
    requires off + ROOM_LEN * n <= |b| && rs == DecChunks(b, off, ROOM_LEN, n, DecRoom)
    ensures Flat(rs, EncRoom) == Respelled(b, off, ROOM_LEN, n, NO_FLAG)
  {
    forall i | 0 <= i < n
      ensures var c := Chunk(b, off, ROOM_LEN, i); EncRoom(DecRoom(c)) == RespelledChunk(c, NO_FLAG)
    {
      ChunkIsSlice(b, off, ROOM_LEN, n, i);
      RoomRespelled(Chunk(b, off, ROOM_LEN, i));
    }
    ChunksRespelled(b, off, n, EncRoom, DecRoom, ROOM_LEN, NO_FLAG);
  }

  // ── Blobs ──────────────────────────────────────────────────────────────────

  function RespelledHeader(b: seq<u8>): (h: seq<u8>)
    requires |b| >= HEADER_LEN_V2
    ensures |h| == HEADER_LEN_V2
  {
    b[..HEADER_LEN_V2][21 := Flag(b[21])][22 := Flag(b[22])]
  }

  /** A version 2 blob up to its last channel, with every flag spelled 0 or 1 and every other byte its own. */
  function RespelledV2(b: seq<u8>): seq<u8>
    requires CountsFitV2(b)
  {
    RespelledHeader(b)
    + Respelled(b, HEADER_LEN_V2, CONTACT_LEN_V2, b[1], CONTACT_FLAG)
    + Respelled(b, ChannelsAtV2(b), CHANNEL_LEN, b[2], CHANNEL_FLAG)
  }

  function RespelledV3(b: seq<u8>): seq<u8>
    requires CountsFitV3(b)
  {
    RespelledHeader(b) + [b[31]]
    + Respelled(b, HEADER_LEN, CONTACT_LEN, b[1], CONTACT_FLAG)
    + Respelled(b, ChannelsAt(b), CHANNEL_LEN, b[2], CHANNEL_FLAG)
    + Respelled(b, RoomsAt(b), ROOM_LEN, b[31], NO_FLAG)
  }

  /** Every flag of a version 2 blob is spelled 0 or 1. */
  predicate SpelledV2(b: seq<u8>)
    requires CountsFitV2(b)
  {
    && b[21] <= 1 && b[22] <= 1
    && FlagsSpelled(b, HEADER_LEN_V2, CONTACT_LEN_V2, b[1], CONTACT_FLAG)
    && FlagsSpelled(b, ChannelsAtV2(b), CHANNEL_LEN, b[2], CHANNEL_FLAG)
  }

  predicate SpelledV3(b: seq<u8>)
    requires CountsFitV3(b)
  {
    && b[21] <= 1 && b[22] <= 1
    && FlagsSpelled(b, HEADER_LEN, CONTACT_LEN, b[1], CONTACT_FLAG)
    && FlagsSpelled(b, ChannelsAt(b), CHANNEL_LEN, b[2], CHANNEL_FLAG)
  }

  lemma HeaderRespelled(b: seq<u8>, img: Image)
    requires |b| >= HEADER_LEN_V2
    requires img.contactCount == b[1] && img.channelCount == b[2] && img.settings == DecSettings(b)
    ensures EncHeader(b[0], img) == RespelledHeader(b)
  {
    Le32Inverse(b[23..27]);
  }

  lemma HeaderSpelledIff(b: seq<u8>)
    requires |b| >= HEADER_LEN_V2
    ensures RespelledHeader(b) == b[..HEADER_LEN_V2] <==> b[21] <= 1 && b[22] <= 1
  {
    var h := b[..HEADER_LEN_V2];
    assert RespelledHeader(b)[21] == Flag(b[21]) && RespelledHeader(b)[22] == Flag(b[22]);
    assert h[21] == b[21] && h[22] == b[22];
  }

  lemma PrefixExtendsIff(x: seq<u8>, y: seq<u8>, b: seq<u8>, m: nat)
    requires |x| == m && m + |y| <= |b|
    ensures x + y <= b <==> x <= b && y == b[m..m + |y|]
  {
    var k := m + |y|;
    SplitEquality(x, y, b, 0, m, k);
    assert b[0..k] == b[..k] && b[0..m] == b[..m];
    assert x + y <= b <==> x + y == b[..k];
  }

  lemma PartExtendsIff(x: seq<u8>, b: seq<u8>, m: nat, len: nat, n: nat, at: nat)
    requires |x| == m && m + len * n <= |b|
    ensures var y := Respelled(b, m, len, n, at);
            |x + y| == m + len * n && (x + y <= b <==> x <= b && FlagsSpelled(b, m, len, n, at))
  {
    RespelledLength(b, m, len, n, at);
    RespelledIsSliceIff(b, m, len, n, at, m + len * n);
    PrefixExtendsIff(x, Respelled(b, m, len, n, at), b, m);
  }

  lemma RespelledV2IsPrefixIff(b: seq<u8>)
    requires CountsFitV2(b)
    ensures RespelledV2(b) <= b <==> SpelledV2(b)
  {
    var header := RespelledHeader(b);
    HeaderSpelledIff(b);
    PartExtendsIff(header, b, HEADER_LEN_V2, CONTACT_LEN_V2, b[1], CONTACT_FLAG);
    var front := header + Respelled(b, HEADER_LEN_V2, CONTACT_LEN_V2, b[1], CONTACT_FLAG);
    PartExtendsIff(front, b, ChannelsAtV2(b), CHANNEL_LEN, b[2], CHANNEL_FLAG);
  }

  lemma RespelledV3IsPrefixIff(b: seq<u8>)
    requires CountsFitV3(b)
    ensures RespelledV3(b) <= b <==> SpelledV3(b)
  {
    var header := RespelledHeader(b);
    HeaderSpelledIff(b);
    PrefixExtendsIff(header, [b[31]], b, HEADER_LEN_V2);
    assert b[HEADER_LEN_V2..HEADER_LEN] == [b[31]];
    PartExtendsIff(header + [b[31]], b, HEADER_LEN, CONTACT_LEN, b[1], CONTACT_FLAG);
    var front := header + [b[31]] + Respelled(b, HEADER_LEN, CONTACT_LEN, b[1], CONTACT_FLAG);
    PartExtendsIff(front, b, ChannelsAt(b), CHANNEL_LEN, b[2], CHANNEL_FLAG);
    var lists := front + Respelled(b, ChannelsAt(b), CHANNEL_LEN, b[2], CHANNEL_FLAG);
    PartExtendsIff(lists, b, RoomsAt(b), ROOM_LEN, b[31], NO_FLAG);
    NothingToSpell(b, RoomsAt(b), b[31]);
  }

  lemma NothingToSpell(b: seq<u8>, off: nat, n: nat)
    ensures FlagsSpelled(b, off, ROOM_LEN, n, NO_FLAG)
  {
  }

  /** `img` holds what version 2 reads from `b`. */
  predicate ReadV2(b: seq<u8>, img: Image) {
    && CountsFitV2(b) && b[0] == CFG_VERSION_V2
    && img.contactCount == b[1] && img.channelCount == b[2] && img.roomCount == 0 && img.settings == DecSettings(b)
    && img.contacts[..img.contactCount] == DecChunks(b, HEADER_LEN_V2, CONTACT_LEN_V2, b[1], DecContactV2)
    && img.channels[..img.channelCount] == DecChunks(b, ChannelsAtV2(b), CHANNEL_LEN, b[2], DecChannel)
  }

  predicate ReadV3(b: seq<u8>, img: Image) {
    && CountsFitV3(b) && b[0] == CFG_VERSION
    && img.contactCount == b[1] && img.channelCount == b[2] && img.roomCount == b[31] && img.settings == DecSettings(b)
    && img.contacts[..img.contactCount] == DecChunks(b, HEADER_LEN, CONTACT_LEN, b[1], DecContact)
    && img.channels[..img.channelCount] == DecChunks(b, ChannelsAt(b), CHANNEL_LEN, b[2], DecChannel)
    && img.rooms[..img.roomCount] == DecChunks(b, RoomsAt(b), ROOM_LEN, b[31], DecRoom)
  }

  lemma AcceptedIsRead(b: seq<u8>)
    requires Decode(b).Some?
    ensures b[0] == CFG_VERSION_V2 ==> ReadV2(b, Decode(b).value)
    ensures b[0] == CFG_VERSION ==> ReadV3(b, Decode(b).value)
  {
  }

  lemma ReadV2IsChat(b: seq<u8>, img: Image)
    requires ReadV2(b, img)
    ensures AllChat(img)
  {
    var cs: seq<ChatContact> := DecChunks(b, HEADER_LEN_V2, CONTACT_LEN_V2, b[1], DecContactV2);
    assert img.contacts[..img.contactCount] == cs;
  }

  lemma ReadV2IsRespelled(b: seq<u8>, img: Image)
    requires ReadV2(b, img) && AllChat(img)
    ensures EncodeV2(img) == RespelledV2(b)
  {
    HeaderRespelled(b, img);
    ContactsV2Respelled(b, HEADER_LEN_V2, b[1], img.contacts[..img.contactCount]);
    ChannelsRespelled(b, ChannelsAtV2(b), b[2], img.channels[..img.channelCount]);
  }

  lemma ReadV3IsRespelled(b: seq<u8>, img: Image)
    requires ReadV3(b, img)
    ensures Encode(img) == RespelledV3(b)
  {
    HeaderRespelled(b, img);
    ContactsRespelled(b, HEADER_LEN, b[1], img.contacts[..img.contactCount]);
    ChannelsRespelled(b, ChannelsAt(b), b[2], img.channels[..img.channelCount]);
    RoomsRespelled(b, RoomsAt(b), b[31], img.rooms[..img.roomCount]);
  }

  /**
   * Every accepted version 2 blob, whoever wrote it: its contacts are chat contacts and it has no rooms; the old
   * writer makes of its configuration the blob's own bytes with every flag spelled 0 or 1, so the blob begins with
   * that exactly when it spells them so; and reading that gives the same configuration.
   */
  lemma AcceptedV2Migrates(b: seq<u8>)
    requires Decode(b).Some? && b[0] == CFG_VERSION_V2
    ensures var img := Decode(b).value;
            && AllChat(img) && img.roomCount == 0 && CountsFitV2(b)
            && EncodeV2(img) == RespelledV2(b)
            && (EncodeV2(img) <= b <==> SpelledV2(b))
            && Decode(EncodeV2(img)) == Some(img)
  {
    var img := Decode(b).value;
    AcceptedIsRead(b);
    ReadV2IsChat(b, img);
    ReadV2IsRespelled(b, img);
    RespelledV2IsPrefixIff(b);
    AcceptedIsBlanked(b);
    MigrationIsLossless(img, []);
    assert EncodeV2(img) + [] == EncodeV2(img);
  }

  /** The same of version 3: saving what was accepted writes the blob again, its flags spelled 0 and 1. */
  lemma AcceptedV3IsRewritten(b: seq<u8>)
    requires Decode(b).Some? && b[0] == CFG_VERSION
    ensures CountsFitV3(b) && Encode(Decode(b).value) == RespelledV3(b)
    ensures Encode(Decode(b).value) <= b <==> SpelledV3(b)
  {
    AcceptedIsRead(b);
    ReadV3IsRespelled(b, Decode(b).value);
    RespelledV3IsPrefixIff(b);
  }
}
