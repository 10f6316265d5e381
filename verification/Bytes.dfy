/** Little-endian words, and copying bytes into a caller's buffer. */
module Bytes {
  import opened Arith
  import opened Words

  function BoolByte(b: bool): u8 { if b then 1 else 0 }

  function Le32(v: u32): seq<u8> {
    [v % 0x100, v / 0x100 % 0x100, v / 0x1_0000 % 0x100, v / 0x100_0000]
  }

  function FromLe32(b: seq<u8>): u32
    requires |b| == 4
  {
    var b0: int, b1: int, b2: int, b3: int := b[0], b[1], b[2], b[3];
    b0 + 0x100 * b1 + 0x1_0000 * b2 + 0x100_0000 * b3
  }

  lemma Le32RoundTrip(v: u32)
    ensures FromLe32(Le32(v)) == v
  {
    var a := v / 0x100;
    var b := a / 0x100;
    assert v / 0x1_0000 == b;
    assert v / 0x100_0000 == b / 0x100;
    assert v == v % 0x100 + 0x100 * (a % 0x100) + 0x1_0000 * b;
  }

  lemma Le32Inverse(b: seq<u8>)
    requires |b| == 4
    ensures Le32(FromLe32(b)) == b
  {
    var b0: int, b1: int, b2: int, b3: int := b[0], b[1], b[2], b[3];
    var v, u, w := FromLe32(b), b1 + 0x100 * b2 + 0x1_0000 * b3, b2 + 0x100 * b3;
    DivModUnique(v, 0x100, u, b0);
    DivModUnique(u, 0x100, w, b1);
    DivModUnique(w, 0x100, b3, b2);
    assert v / 0x1_0000 == w && v / 0x100_0000 == b3;
  }

  /** Append `s` behind the first `off` bytes and leave everything after it alone. */
  method CopyInto(out: array<u8>, off: nat, s: seq<u8>) returns (next: nat)
    requires off + |s| <= out.Length
    modifies out
    ensures next == off + |s|
    ensures out[..next] == old(out[..off]) + s
    ensures forall i :: next <= i < out.Length ==> out[i] == old(out[i])
  {
    next := off + |s|;
    for i := 0 to |s|
      invariant out[..off] == old(out[..off])
      invariant out[off..off + i] == s[..i]
      invariant forall j :: next <= j < out.Length ==> out[j] == old(out[j])
    {
      out[off + i] := s[i];
    }
    assert out[..next] == out[..off] + out[off..next];
  }
}
