/**
 * Fixed-width unsigned integers, little-endian byte layout and UTF-8
 * well-formedness: the byte-level vocabulary shared by the HAB container
 * reader and the texture-bank converter.
 */
module Bytes {

  type Byte = x: int | 0 <= x < 0x100
  type U16 = x: int | 0 <= x < 0x1_0000
  type U32 = x: int | 0 <= x < 0x1_0000_0000
  /** A 4-bit value, as produced by `(byte >> 4) & 0b1111` or `byte & 0b1111`. */
  type Nibble = x: int | 0 <= x < 0x10

  function Min(a: int, b: int): int { if a <= b then a else b }
  function Max(a: int, b: int): int { if a <= b then b else a }

  /** `u16::from_le_bytes`: the value of two bytes, least significant first. */
  function LeU16(b: seq<Byte>): U16
    requires |b| == 2
  {
    b[0] as int + 0x100 * b[1] as int
  }

  /** `u32::from_le_bytes`: the value of four bytes, least significant first. */
  function LeU32(b: seq<Byte>): U32
    requires |b| == 4
  {
    b[0] as int + 0x100 * b[1] as int + 0x1_0000 * b[2] as int + 0x100_0000 * b[3] as int
  }

  /** `u16::to_le_bytes`, the inverse of LeU16. */
  function LeBytes16(v: U16): (b: seq<Byte>)
    ensures |b| == 2
  {
    [v % 0x100, v / 0x100]
  }

  /** `u32::to_le_bytes`, the inverse of LeU32. */
  function LeBytes32(v: U32): (b: seq<Byte>)
    ensures |b| == 4
  {
    [v % 0x100, (v / 0x100) % 0x100, (v / 0x1_0000) % 0x100, v / 0x100_0000]
  }

  lemma LeU16RoundTrip(v: U16)
    ensures LeU16(LeBytes16(v)) == v
  {
  }

  lemma LeBytes16RoundTrip(b: seq<Byte>)
    requires |b| == 2
    ensures LeBytes16(LeU16(b)) == b
  {
  }

  lemma LeU32RoundTrip(v: U32)
    ensures LeU32(LeBytes32(v)) == v
  {
    var q1 := v / 0x100;
    var q2 := q1 / 0x100;
    assert v == v % 0x100 + 0x100 * q1;
    assert q1 == q1 % 0x100 + 0x100 * q2;
    assert v / 0x1_0000 == q2;
    assert q2 == q2 % 0x100 + 0x100 * (v / 0x100_0000);
  }

  /** A slice of a slice is a slice of the whole. */
  lemma SliceOfSlice(s: seq<Byte>, lo: nat, hi: nat, i: nat, j: nat)
    requires lo <= hi <= |s| && i <= j <= hi - lo
    ensures s[lo..hi][i..j] == s[lo + i..lo + j]
  {
    assert forall k | 0 <= k < j - i :: s[lo..hi][i..j][k] == s[lo + i + k];
  }

  /** A slice of a region equal to `t` is the same slice of `t`. */
  lemma SliceOfEqual(s: seq<Byte>, lo: nat, t: seq<Byte>, i: nat, w: nat)
    requires lo + |t| <= |s| && s[lo..lo + |t|] == t && i + w <= |t|
    ensures s[lo + i..lo + i + w] == t[i..i + w]
  {
    var u, v := s[lo + i..lo + i + w], t[i..i + w];
    assert forall j | 0 <= j < w :: u[j] == v[j];
  }

  /** Record k of `n` sixteen-byte records stored at `lo` is record k of `t`. */
  lemma RecordOfRegion(s: seq<Byte>, lo: nat, t: seq<Byte>, n: nat, k: nat)
    requires lo + 16 * n <= |s| && |t| == 16 * n && s[lo..lo + 16 * n] == t
    requires k < n
    ensures s[lo + 16 * k..lo + 16 * k + 16] == t[16 * k..16 * k + 16]
  {
    assert 16 * k + 16 <= 16 * n;
    SliceOfEqual(s, lo, t, 16 * k, 16);
  }

  /** A slice that lies within the first part of a concatenation. */
  lemma PrefixOfAppend(a: seq<Byte>, b: seq<Byte>, i: nat, j: nat)
    requires i <= j <= |a|
    ensures (a + b)[i..j] == a[i..j]
  {
    assert forall k | 0 <= k < j - i :: (a + b)[i..j][k] == a[i + k];
  }

  /** A slice that lies within the second part of a concatenation. */
  lemma SuffixOfAppend(a: seq<Byte>, b: seq<Byte>, i: nat, j: nat)
    requires i <= j <= |b|
    ensures (a + b)[|a| + i..|a| + j] == b[i..j]
  {
    var s := (a + b)[|a| + i..|a| + j];
    assert forall k | 0 <= k < j - i :: s[k] == b[i + k];
  }

  /** `n` zero bytes. */
  function Zeros(n: nat): (z: seq<Byte>)
    ensures |z| == n
  {
    seq(n, i => 0)
  }

  /** Division and remainder by 0x100 undo a shift by one byte. */
  lemma ByteShift(low: int, high: int)
    requires 0 <= low < 0x100 && 0 <= high
    ensures (low + 0x100 * high) / 0x100 == high && (low + 0x100 * high) % 0x100 == low
  {
  }

  lemma LeBytes32RoundTrip(b: seq<Byte>)
    requires |b| == 4
    ensures LeBytes32(LeU32(b)) == b
  {
    var v := LeU32(b);
    var q2 := b[2] as int + 0x100 * b[3] as int;
    var q1 := b[1] as int + 0x100 * q2;
    assert v == b[0] as int + 0x100 * q1;
    ByteShift(b[0], q1);
    ByteShift(b[1], q2);
    ByteShift(b[2], b[3]);
    assert v / 0x1_0000 == q1 / 0x100;
    assert v / 0x100_0000 == q2 / 0x100;
  }

  /** The high nibble of a byte: `(byte >> 4) & 0b1111`. */
  function HighNibble(b: Byte): Nibble
  {
    (b / 0x10) % 0x10
  }

  /** The low nibble of a byte: `(byte >> 0) & 0b1111`. */
  function LowNibble(b: Byte): Nibble
  {
    b % 0x10
  }

  /** The two nibbles together hold the whole byte: nothing is lost or shared. */
  lemma NibbleSplit(b: Byte)
    ensures 0x10 * HighNibble(b) + LowNibble(b) == b
    ensures forall c: Byte :: HighNibble(c) == HighNibble(b) && LowNibble(c) == LowNibble(b) ==> c == b
  {
    forall c: Byte | HighNibble(c) == HighNibble(b) && LowNibble(c) == LowNibble(b)
      ensures c == b
    {
      assert c == 0x10 * (c / 0x10) + c % 0x10;
      assert b == 0x10 * (b / 0x10) + b % 0x10;
    }
  }

  /** A UTF-8 continuation byte, 0x80..0xBF. */
  predicate IsContinuation(b: Byte)
  {
    0x80 <= b <= 0xBF
  }

  /**
   * The length of the well-formed UTF-8 sequence that starts at `i`, or 0
   * when none does there: shortest form only, no surrogate code points
   * (ED A0..BF) and nothing above U+10FFFF (Table 3-7 of the Unicode
   * Standard, RFC 3629).
   */
  function SequenceLength(s: seq<Byte>, i: nat): (w: nat)
    requires i < |s|
    ensures w <= 4 && (w > 0 ==> i + w <= |s|)
  {
    var b := s[i];
    if b < 0x80 then 1
    else if 0xC2 <= b <= 0xDF then
      if i + 2 <= |s| && IsContinuation(s[i + 1]) then 2 else 0
    else if 0xE0 <= b <= 0xEF then
      if i + 3 <= |s| && IsContinuation(s[i + 2]) &&
         (if b == 0xE0 then 0xA0 <= s[i + 1] <= 0xBF
          else if b == 0xED then 0x80 <= s[i + 1] <= 0x9F
          else IsContinuation(s[i + 1]))
      then 3 else 0
    else if 0xF0 <= b <= 0xF4 then
      if i + 4 <= |s| && IsContinuation(s[i + 2]) && IsContinuation(s[i + 3]) &&
         (if b == 0xF0 then 0x90 <= s[i + 1] <= 0xBF
          else if b == 0xF4 then 0x80 <= s[i + 1] <= 0x8F
          else IsContinuation(s[i + 1]))
      then 4 else 0
    else 0
  }

  /** The bytes from `i` on are a sequence of well-formed UTF-8 sequences. */
  predicate ValidUtf8From(s: seq<Byte>, i: nat)
    decreases |s| - i
  {
    i >= |s| || (SequenceLength(s, i) > 0 && ValidUtf8From(s, i + SequenceLength(s, i)))
  }

  /** Well-formed UTF-8 in the sense of `String::from_utf8`. */
  predicate ValidUtf8(s: seq<Byte>)
  {
    ValidUtf8From(s, 0)
  }

  /** Every ASCII byte string is valid UTF-8 (so plain file names always decode). */
  lemma AsciiIsUtf8(s: seq<Byte>)
    requires forall k :: 0 <= k < |s| ==> s[k] < 0x80
    ensures ValidUtf8(s)
  {
    AsciiIsUtf8From(s, 0);
  }

  lemma {:induction false} AsciiIsUtf8From(s: seq<Byte>, i: nat)
    requires forall k :: i <= k < |s| ==> s[k] < 0x80
    ensures ValidUtf8From(s, i)
    decreases |s| - i
  {
    if i < |s| {
      AsciiIsUtf8From(s, i + 1);
    }
  }

  /** A lone continuation byte or an over-long lead byte makes a name undecodable. */
  lemma InvalidLeadByte(s: seq<Byte>)
    requires s != [] && (IsContinuation(s[0]) || s[0] == 0xC0 || s[0] == 0xC1 || s[0] >= 0xF5)
    ensures !ValidUtf8(s)
  {
  }
}
