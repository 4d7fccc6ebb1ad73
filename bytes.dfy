/**
 * Fixed-width little-endian integers over byte sequences: the `byte_helper`
 * conversions (`u16_to_bytes`, `u32_to_bytes`, `bytes_to_u16`, `bytes_to_u32`)
 * that every codec of the negotiation stage builds on, plus the zero-padding
 * rule the negotiate codec uses.
 */
module Bytes {

  type Byte = x: int | 0 <= x < 0x100
  type U16 = x: int | 0 <= x < 0x1_0000
  type U32 = x: int | 0 <= x < 0x1_0000_0000
  type U64 = x: int | 0 <= x < 0x1_0000_0000_0000_0000

  /** `u16_to_bytes`: low byte first. */
  function LE16(x: U16): (r: seq<Byte>)
    ensures |r| == 2
  {
    [x % 0x100, x / 0x100]
  }

  /** `u32_to_bytes`: two little-endian halves, low half first. */
  function LE32(x: U32): (r: seq<Byte>)
    ensures |r| == 4
  {
    LE16(x % 0x1_0000) + LE16(x / 0x1_0000)
  }

  /** An 8-byte little-endian integer (the wire form of a FILETIME). */
  function LE64(x: U64): (r: seq<Byte>)
    ensures |r| == 8
  {
    LE32(x % 0x1_0000_0000) + LE32(x / 0x1_0000_0000)
  }

  /** `bytes_to_u16(&s[i..i+2])`. */
  function ReadU16(s: seq<Byte>, i: nat): U16
    requires i + 2 <= |s|
  {
    s[i] as int + 0x100 * (s[i + 1] as int)
  }

  /** `bytes_to_u32(&s[i..i+4])`. */
  function ReadU32(s: seq<Byte>, i: nat): U32
    requires i + 4 <= |s|
  {
    ReadU16(s, i) + 0x1_0000 * ReadU16(s, i + 2)
  }

  /** `vec![0; n]`. */
  function Zeros(n: nat): (r: seq<Byte>)
    ensures |r| == n && forall i :: 0 <= i < n ==> r[i] == 0
  {
    seq(n, _ => 0)
  }

  /**
   * The padding the negotiate codec inserts after a section that ends at
   * `x`: `8 - (x % 8)`. It is never zero: an aligned `x` gets a full 8 bytes.
   */
  function Pad8(x: nat): (r: nat)
    ensures 1 <= r <= 8 && (x + r) % 8 == 0
    ensures x % 8 == 0 <==> r == 8
  {
    8 - x % 8
  }

  /** Reading back what `LE16` wrote gives the value, wherever it sits. */
  lemma ReadLE16(s: seq<Byte>, i: nat, x: U16)
    requires i + 2 <= |s| && s[i..i + 2] == LE16(x)
    ensures ReadU16(s, i) == x
  {
    assert s[i] == LE16(x)[0] && s[i + 1] == LE16(x)[1];
  }

  /** Reading back what `LE32` wrote gives the value, wherever it sits. */
  lemma ReadLE32(s: seq<Byte>, i: nat, x: U32)
    requires i + 4 <= |s| && s[i..i + 4] == LE32(x)
    ensures ReadU32(s, i) == x
  {
    assert s[i..i + 2] == s[i..i + 4][..2] == LE16(x % 0x1_0000);
    assert s[i + 2..i + 4] == s[i..i + 4][2..] == LE16(x / 0x1_0000);
    ReadLE16(s, i, x % 0x1_0000);
    ReadLE16(s, i + 2, x / 0x1_0000);
  }

  /** Concatenation regroups freely. */
  lemma AppendAssoc<T>(a: seq<T>, b: seq<T>, c: seq<T>)
    ensures a + (b + c) == (a + b) + c
  {
  }

  /** The padding depends only on the position modulo 8. */
  lemma Pad8Shift(p: nat, x: nat)
    requires p % 8 == 0
    ensures Pad8(p + x) == Pad8(x)
  {
  }

  /** A slice that holds a concatenation holds each part at its place. */
  lemma SplitSlice<T>(s: seq<T>, p: nat, a: seq<T>, b: seq<T>)
    requires p + |a| + |b| <= |s| && s[p..p + |a| + |b|] == a + b
    ensures s[p..p + |a|] == a && s[p + |a|..p + |a| + |b|] == b
  {
    assert s[p..p + |a|] == s[p..p + |a| + |b|][..|a|];
    assert s[p + |a|..p + |a| + |b|] == s[p..p + |a| + |b|][|a|..];
  }

  /** Dropping an aligned amount keeps a position aligned. */
  lemma Mod8Drop(k: nat, p: nat)
    requires k % 8 == 0 && (k + p) % 8 == 0
    ensures p % 8 == 0
  {
  }
}
