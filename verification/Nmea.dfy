/** The search for a checksummed NMEA 0183 sentence in arbitrary bytes, and exactly what it finds. */
module Nmea {
  import opened Words

  type byte = bv8

  const DOLLAR: byte := 0x24
  const STAR: byte := 0x2A
  const MIN_BODY := 5
  const MAX_SPAN := 82

  predicate InBody(b: byte) {
    0x20 <= b <= 0x7E && b != STAR
  }

  /** XOR of the bytes between `$` and `*`. */
  function Checksum(body: seq<byte>): byte {
    if body == [] then 0 else Checksum(body[..|body| - 1]) ^ body[|body| - 1]
  }

  function HexDigitValue(b: byte): Option<byte> {
    if 0x30 <= b <= 0x39 then Some(b - 0x30)
    else if 0x41 <= b <= 0x46 then Some(b - 0x41 + 10)
    else if 0x61 <= b <= 0x66 then Some(b - 0x61 + 10)
    else None
  }

  /** A `$` at `dollar`, a `*` at `star`, and nothing but body bytes between them. */
  predicate SpanAt(bytes: seq<byte>, dollar: int, star: int) {
    && 0 <= dollar < star < |bytes|
    && bytes[dollar] == DOLLAR && bytes[star] == STAR
    && star - dollar <= MAX_SPAN
    && forall k :: dollar < k < star ==> InBody(bytes[k])
  }

  predicate ChecksumHolds(bytes: seq<byte>, dollar: int, star: int)
    requires SpanAt(bytes, dollar, star)
  {
    && star + 2 < |bytes|
    && HexDigitValue(bytes[star + 1]).Some? && HexDigitValue(bytes[star + 2]).Some?
    && (HexDigitValue(bytes[star + 1]).value << 4) | HexDigitValue(bytes[star + 2]).value
       == Checksum(bytes[dollar + 1..star])
  }

  /** A sentence with a body of 5 to 81 bytes and a matching checksum. */
  predicate SentenceAt(bytes: seq<byte>, dollar: int, star: int) {
    SpanAt(bytes, dollar, star) && star - dollar - 1 >= MIN_BODY && ChecksumHolds(bytes, dollar, star)
  }

  ghost predicate HasSentence(bytes: seq<byte>) {
    exists dollar, star :: SentenceAt(bytes, dollar, star)
  }

  // ── The scan ───────────────────────────────────────────────────────────────

  /** The first `$` at or after `start`, or the length. */
  method FindDollar(bytes: seq<byte>, start: nat) returns (dollar: nat)
    requires start <= |bytes|
    ensures start <= dollar <= |bytes|
    ensures dollar < |bytes| ==> bytes[dollar] == DOLLAR
    ensures forall k :: start <= k < dollar ==> bytes[k] != DOLLAR
  {
    dollar := start;
    while dollar < |bytes| && bytes[dollar] != DOLLAR
      invariant start <= dollar <= |bytes|
      invariant forall k :: start <= k < dollar ==> bytes[k] != DOLLAR
    {
      dollar := dollar + 1;
    }
  }

  /** The `*` that ends the span of body bytes after `dollar`, if it comes within 82 bytes. */
  method FindStar(bytes: seq<byte>, dollar: nat) returns (star: Option<nat>)
    requires dollar < |bytes| && bytes[dollar] == DOLLAR
    ensures star.Some? ==> SpanAt(bytes, dollar, star.value)
    ensures forall s :: SpanAt(bytes, dollar, s) ==> star == Some(s)
  {
    var end := dollar + 1;
    while end < |bytes| && end - dollar <= MAX_SPAN
      invariant dollar < end <= |bytes|
      invariant forall k :: dollar < k < end ==> InBody(bytes[k])
    {
      var b := bytes[end];
      if b == 0x0D || b == 0x0A {
        break;
      } else if b == STAR {
        return Some(end);
      } else if 0x20 <= b <= 0x7E {
        end := end + 1;
      } else {
        break;
      }
    }
    star := None;
  }

  method ContainsChecksumValidNmea(bytes: seq<byte>) returns (found: bool)
    ensures found <==> HasSentence(bytes)
  {
    var start := 0;
    while start < |bytes|
      invariant start <= |bytes|
      invariant forall d, s :: d < start ==> !SentenceAt(bytes, d, s)
    {
      var dollar := FindDollar(bytes, start);
      if dollar == |bytes| {
        return false;
      }
      var star := FindStar(bytes, dollar);
      if star.Some? {
        var body := bytes[dollar + 1..star.value];
        if |body| >= MIN_BODY && star.value + 2 < |bytes| {
          var hi, lo := HexDigitValue(bytes[star.value + 1]), HexDigitValue(bytes[star.value + 2]);
          if hi.Some? && lo.Some? {
            var expected := (hi.value << 4) | lo.value;
            if Checksum(body) == expected {
              assert SentenceAt(bytes, dollar, star.value);
              return true;
            }
          }
        }
      }
      start := dollar + 1;
    }
    return false;
  }

  // ── What the scan accepts ──────────────────────────────────────────────────

  function HexDigit(v: byte): byte {
    if v < 10 then 0x30 + v else 0x41 + (v - 10)
  }

  /** A sentence as a transmitter frames it. */
  function Sentence(body: seq<byte>): seq<byte> {
    var c := Checksum(body);
    [DOLLAR] + body + [STAR, HexDigit(c >> 4), HexDigit(c & 0xF)]
  }

  lemma HexDigitsJoin(c: byte)
    ensures HexDigitValue(HexDigit(c >> 4)) == Some(c >> 4)
    ensures HexDigitValue(HexDigit(c & 0xF)) == Some(c & 0xF)
    ensures ((c >> 4) << 4) | (c & 0xF) == c
  {
  }

  lemma FramedSentenceAt(prefix: seq<byte>, body: seq<byte>, suffix: seq<byte>)
    requires MIN_BODY <= |body| < MAX_SPAN && forall k :: 0 <= k < |body| ==> InBody(body[k])
    ensures SentenceAt(prefix + Sentence(body) + suffix, |prefix|, |prefix| + 1 + |body|)
  {
    var bytes := prefix + Sentence(body) + suffix;
    var dollar := |prefix|;
    var star := dollar + 1 + |body|;
    assert bytes[dollar + 1..star] == body;
    assert forall k :: dollar < k < star ==> bytes[k] == body[k - dollar - 1];
    HexDigitsJoin(Checksum(body));
  }

  /** Hex digits in either case stand for their values, and nothing else stands for any. */
  lemma HexDigitValueIff(b: byte, v: byte)
    ensures HexDigitValue(b) == Some(v) <==>
            || (v < 10 && b == 0x30 + v)
            || (10 <= v < 16 && (b == 0x37 + v || b == 0x57 + v))
  {
  }

  /**
   * A sentence, spelled out: a `$`, from 5 to 81 printable bytes other than `*`, a `*`, and then the XOR of the
   * bytes between them as two hex digits, the high one first.
   */
  lemma SentenceIff(bytes: seq<byte>, d: int, s: int)
    ensures SentenceAt(bytes, d, s) <==>
            && 0 <= d && d + 6 <= s <= d + 82 && s + 2 < |bytes| && bytes[d] == 0x24 && bytes[s] == 0x2A
            && (forall k :: d < k < s ==> 0x20 <= bytes[k] <= 0x7E && bytes[k] != 0x2A)
            && HexDigitValue(bytes[s + 1]) == Some(Checksum(bytes[d + 1..s]) >> 4)
            && HexDigitValue(bytes[s + 2]) == Some(Checksum(bytes[d + 1..s]) & 0xF)
  {
    if SpanAt(bytes, d, s) && s + 2 < |bytes| {
      var hi, lo := HexDigitValue(bytes[s + 1]), HexDigitValue(bytes[s + 2]);
      if hi.Some? && lo.Some? {
        DigitsSplit(hi.value, lo.value, Checksum(bytes[d + 1..s]));
      }
    }
  }

  lemma DigitsSplit(hi: byte, lo: byte, c: byte)
    requires hi < 16 && lo < 16
    ensures (hi << 4) | lo == c <==> hi == c >> 4 && lo == c & 0xF
  {
  }

  lemma ChecksumStarts(b: byte)
    ensures Checksum([]) == 0 && Checksum([b]) == b
  {
    assert [b][..0] == [];
    ZeroXor(b);
  }

  /** A correctly framed sentence is found whatever noise comes before and after it. */
  lemma FramedSentenceFound(prefix: seq<byte>, body: seq<byte>, suffix: seq<byte>)
    requires MIN_BODY <= |body| < MAX_SPAN && forall k :: 0 <= k < |body| ==> InBody(body[k])
    ensures HasSentence(prefix + Sentence(body) + suffix)
  {
    FramedSentenceAt(prefix, body, suffix);
  }

  /** The documented ceiling: the sentence, from its dollar to its second hex digit, lies within 82 bytes. */
  ghost predicate HasSentenceWithinCeiling(bytes: seq<byte>) {
    exists dollar, star :: SentenceAt(bytes, dollar, star) && star + 3 - dollar <= MAX_SPAN
  }

  /** Neither the noise nor the body holds a second dollar that could begin another sentence. */
  predicate OneDollar(prefix: seq<byte>, body: seq<byte>, suffix: seq<byte>) {
    DOLLAR !in prefix && DOLLAR !in body && DOLLAR !in suffix
  }

  /**
   * The scan bounds the distance to the star alone, so it also takes framed sentences of 83 to 85 bytes. Under any
   * noise a body of up to 78 bytes keeps the documented ceiling, and without a second dollar only such a body does.
   */
  lemma FramedSentenceWithinCeilingIff(prefix: seq<byte>, body: seq<byte>, suffix: seq<byte>)
    requires MIN_BODY <= |body| < MAX_SPAN && forall k :: 0 <= k < |body| ==> InBody(body[k])
    ensures HasSentence(prefix + Sentence(body) + suffix)
    ensures |body| <= 78 ==> HasSentenceWithinCeiling(prefix + Sentence(body) + suffix)
    ensures OneDollar(prefix, body, suffix) ==>
              (HasSentenceWithinCeiling(prefix + Sentence(body) + suffix) <==> |body| <= 78)
  {
    var bytes := prefix + Sentence(body) + suffix;
    FramedSentenceAt(prefix, body, suffix);
    if |body| <= 78 {
      assert |prefix| + |body| + 1 + 3 - |prefix| <= MAX_SPAN;
    }
    if OneDollar(prefix, body, suffix) {
      forall dollar, star | SentenceAt(bytes, dollar, star)
        ensures star - dollar == |body| + 1
      {
        var c := Checksum(body);
        HexDigitsArePrintable(c);
        OnlySpan(prefix, body, HexDigit(c >> 4), HexDigit(c & 0xF), suffix, dollar, star);
      }
    }
  }

  /** With a second dollar a shorter sentence may end at the same star: here one of 10 bytes in one of 83. */
  lemma InnerSentenceWithinCeiling(inner: seq<byte>) returns (body: seq<byte>)
    requires |inner| == 6 && forall k :: 0 <= k < |inner| ==> InBody(inner[k])
    ensures |body| == 79 && forall k :: 0 <= k < |body| ==> InBody(body[k])
    ensures HasSentenceWithinCeiling(Sentence(body))
  {
    var lead := Lead();
    body := lead + [DOLLAR] + inner;
    InnerFramed(lead, inner);
  }

  lemma InnerFramed(lead: seq<byte>, inner: seq<byte>)
    requires |inner| == 6 && (forall k :: 0 <= k < |inner| ==> InBody(inner[k])) && Checksum(lead) == DOLLAR
    ensures HasSentenceWithinCeiling(Sentence(lead + [DOLLAR] + inner))
  {
    InnerChecksum(lead, inner);
    InnerFrame(lead, inner);
    FramedSentenceWithinCeilingIff([DOLLAR] + lead, inner, []);
  }

  lemma InnerFrame(lead: seq<byte>, inner: seq<byte>)
    requires Checksum(lead + [DOLLAR] + inner) == Checksum(inner)
    ensures Sentence(lead + [DOLLAR] + inner) == ([DOLLAR] + lead) + Sentence(inner) + []
  {
  }

  lemma InnerChecksum(lead: seq<byte>, inner: seq<byte>)
    requires Checksum(lead) == DOLLAR
    ensures Checksum(lead + [DOLLAR] + inner) == Checksum(inner)
  {
    ChecksumConcat(lead + [DOLLAR], inner);
    assert (lead + [DOLLAR])[..|lead|] == lead;
    ZeroXor(Checksum(inner));
  }

  /** 72 body bytes whose checksum is that of a dollar. */
  lemma Lead() returns (lead: seq<byte>)
    ensures |lead| == 72 && Checksum(lead) == DOLLAR && forall k :: 0 <= k < |lead| ==> InBody(lead[k])
  {
    lead := [0x64, 0x40];
    assert lead[..1] == [0x64] && lead[..1][..0] == [];
    while |lead| < 72
      invariant |lead| <= 72 && |lead| % 2 == 0
      invariant Checksum(lead) == DOLLAR && forall k :: 0 <= k < |lead| ==> InBody(lead[k])
    {
      var longer := lead + [0x41, 0x41];
      assert longer[..|lead| + 1] == lead + [0x41] && (lead + [0x41])[..|lead|] == lead;
      lead := longer;
    }
  }

  lemma ZeroXor(x: byte)
    ensures 0 ^ x == x
  {
  }

  lemma {:induction false} ChecksumConcat(a: seq<byte>, b: seq<byte>)
    ensures Checksum(a + b) == Checksum(a) ^ Checksum(b)
  {
    if b == [] {
      assert a + b == a;
    } else {
      ChecksumConcat(a, b[..|b| - 1]);
      assert (a + b)[..|a + b| - 1] == a + b[..|b| - 1];
      XorAssociates(Checksum(a), Checksum(b[..|b| - 1]), b[|b| - 1]);
    }
  }

  lemma XorAssociates(a: byte, b: byte, c: byte)
    ensures (a ^ b) ^ c == a ^ (b ^ c)
  {
  }

  /** A sentence of 83 bytes, with a body of 79, is accepted. */
  lemma SentenceBeyondCeilingAccepted(body: seq<byte>)
    requires body == seq(79, _ => 0x41)
    ensures |Sentence(body)| == 83 && HasSentence(Sentence(body)) && !HasSentenceWithinCeiling(Sentence(body))
  {
    FramedSentenceWithinCeilingIff([], body, []);
    assert [] + Sentence(body) + [] == Sentence(body);
  }

  /** Without a second dollar there is only one span. */
  lemma OnlySpan(prefix: seq<byte>, body: seq<byte>, hi: byte, lo: byte, suffix: seq<byte>, dollar: int, star: int)
    requires (forall k :: 0 <= k < |body| ==> InBody(body[k])) && OneDollar(prefix, body, suffix)
    requires hi != DOLLAR && lo != DOLLAR
    requires SpanAt(prefix + ([DOLLAR] + body + [STAR, hi, lo]) + suffix, dollar, star)
    ensures dollar == |prefix| && star == |prefix| + |body| + 1
  {
    var p, n := |prefix|, |body|;
    var bytes := prefix + ([DOLLAR] + body + [STAR, hi, lo]) + suffix;
    assert forall k :: 0 <= k < p ==> bytes[k] == prefix[k];
    assert forall k :: p < k <= p + n ==> bytes[k] == body[k - p - 1];
    assert bytes[p + n + 1] == STAR && bytes[p + n + 2] == hi && bytes[p + n + 3] == lo;
    assert forall k :: p + n + 4 <= k < |bytes| ==> bytes[k] == suffix[k - p - n - 4];
    assert dollar == p;
  }

  lemma HexDigitsArePrintable(c: byte)
    ensures HexDigit(c >> 4) != DOLLAR && HexDigit(c >> 4) != STAR
    ensures HexDigit(c & 0xF) != DOLLAR && HexDigit(c & 0xF) != STAR
  {
    HexDigitsJoin(c);
  }

  /** The checksum moves by exactly the bits in which one body byte is changed. */
  lemma {:induction false} ChecksumOfChange(body: seq<byte>, i: nat, x: byte)
    requires i < |body|
    ensures Checksum(body[i := x]) == Checksum(body) ^ (body[i] ^ x)
  {
    var n := |body| - 1;
    if i < n {
      ChecksumOfChange(body[..n], i, x);
      assert body[i := x][..n] == body[..n][i := x];
      XorMoves(Checksum(body[..n]), body[i] ^ x, body[n]);
    } else {
      assert body[i := x][..n] == body[..n];
      XorCancels(Checksum(body[..n]), body[n], x);
    }
  }

  lemma XorMoves(a: byte, b: byte, c: byte)
    ensures (a ^ b) ^ c == (a ^ c) ^ b
  {
  }

  lemma XorCancels(a: byte, b: byte, x: byte)
    ensures a ^ x == (a ^ b) ^ (b ^ x)
  {
  }

  lemma XorDetects(a: byte, b: byte, x: byte)
    requires b != x
    ensures a ^ (b ^ x) != a
  {
  }

  /** A sentence with exactly one body byte changed is no sentence any more. */
  lemma OneWrongByteIsDetected(bytes: seq<byte>, dollar: int, star: int, i: int, x: byte)
    requires SentenceAt(bytes, dollar, star) && dollar < i < star && x != bytes[i]
    ensures !SentenceAt(bytes[i := x], dollar, star)
  {
    var body := bytes[dollar + 1..star];
    var j := i - dollar - 1;
    assert bytes[i := x][dollar + 1..star] == body[j := x];
    ChecksumOfChange(body, j, x);
    XorDetects(Checksum(body), bytes[i], x);
  }
}
