/** Bytes, big-endian words and in-place replacement of a stretch of memory. */
module Bytes {

  newtype byte = x: int | 0 <= x < 256

  type u16 = x: int | 0 <= x < 0x1_0000
  type u32 = x: int | 0 <= x < 0x1_0000_0000

  const U32_LIMIT := 0x1_0000_0000

  /** 32-bit addition, which wraps around. */
  function Sum32(a: u32, b: u32): (s: u32)
    ensures s == (a + b) % U32_LIMIT
  {
    if a + b < U32_LIMIT then a + b else a + b - U32_LIMIT
  }

  /** The low 32 bits, as a cast to uint32_t leaves them. */
  function Low32(x: nat): (v: u32)
    ensures v == x % U32_LIMIT
  {
    if x < U32_LIMIT then x else x % U32_LIMIT
  }

  /** The big-endian 32-bit word stored at position p. */
  function U32At(m: seq<byte>, p: nat): (v: u32)
    requires p + 4 <= |m|
  {
    m[p] as int * 0x100_0000 + m[p + 1] as int * 0x1_0000 + m[p + 2] as int * 0x100 + m[p + 3] as int
  }

  /** The big-endian 16-bit word stored at position p. */
  function U16At(m: seq<byte>, p: nat): (v: u16)
    requires p + 2 <= |m|
  {
    m[p] as int * 0x100 + m[p + 1] as int
  }

  function U32Bytes(v: u32): (b: seq<byte>)
    ensures |b| == 4 && U32At(b, 0) == v
  {
    var hi, lo := v / 0x1_0000, v % 0x1_0000;
    U16Bytes(hi) + U16Bytes(lo)
  }

  function U16Bytes(v: u16): (b: seq<byte>)
    ensures |b| == 2 && U16At(b, 0) == v
  {
    [(v / 0x100) as byte, (v % 0x100) as byte]
  }

  /** `m` with the bytes at `at` replaced by `d`. */
  function Splice(m: seq<byte>, at: nat, d: seq<byte>): (r: seq<byte>)
    requires at + |d| <= |m|
    ensures |r| == |m|
  {
    m[..at] + d + m[at + |d|..]
  }

  lemma SpliceBytes(m: seq<byte>, at: nat, d: seq<byte>)
    requires at + |d| <= |m|
    ensures forall p :: 0 <= p < |m| ==> Splice(m, at, d)[p] == if at <= p < at + |d| then d[p - at] else m[p]
  {
  }

  lemma SpliceSlices(m: seq<byte>, at: nat, d: seq<byte>, lo: nat, hi: nat)
    requires at + |d| <= |m| && lo <= hi <= |m|
    ensures hi <= at || at + |d| <= lo ==> Splice(m, at, d)[lo..hi] == m[lo..hi]
    ensures Splice(m, at, d)[at..at + |d|] == d
  {
  }

  /** A block of n zero bytes, as memset leaves it. */
  function Zeros(n: nat): (z: seq<byte>)
    ensures |z| == n && forall p :: 0 <= p < n ==> z[p] == 0
  {
    seq(n, _ => 0 as byte)
  }

  /** Data placed behind some padding can be read back, and extends what stood before it when there is no padding. */
  lemma SpliceBehindPadding(m: seq<byte>, lo: nat, base: nat, pad: nat, d: seq<byte>)
    requires lo <= base && base + pad + |d| <= |m|
    ensures Splice(m, base, Zeros(pad) + d)[base + pad..base + pad + |d|] == d
    ensures pad == 0 ==> Splice(m, base, Zeros(pad) + d)[lo..base + |d|] == m[lo..base] + d
  {
  }

  /** Two adjacent replacements are one. */
  lemma SpliceTwice(m: seq<byte>, at: nat, a: seq<byte>, b: seq<byte>)
    requires at + |a| + |b| <= |m|
    ensures Splice(Splice(m, at, a), at + |a|, b) == Splice(m, at, a + b)
  {
  }

  lemma PrefixSlice(m: seq<byte>, n: nat, lo: nat, hi: nat)
    requires lo <= hi <= n <= |m|
    ensures m[..n][lo..hi] == m[lo..hi]
  {
    var a, b := m[..n][lo..hi], m[lo..hi];
    forall k | 0 <= k < hi - lo ensures a[k] == b[k] {
      assert a[k] == m[..n][lo + k] == m[lo + k] == b[k];
    }
  }

  /** Slices that agree byte for byte agree on every word read through them. */
  lemma SliceIndex(m: seq<byte>, lo: nat, hi: nat, p: nat)
    requires lo <= hi <= |m| && lo + p < hi
    ensures m[lo..hi][p] == m[lo + p]
  {
  }

  /** Equal stretches have equal parts. */
  lemma SameBytes(m: seq<byte>, base: nat, m': seq<byte>, base': nat, len: nat, at: nat, count: nat)
    requires base + len <= |m| && base' + len <= |m'| && at + count <= len
    requires m[base..base + len] == m'[base'..base' + len]
    ensures m[base + at..base + at + count] == m'[base' + at..base' + at + count]
  {
    var a, b := m[base + at..base + at + count], m'[base' + at..base' + at + count];
    forall i | 0 <= i < count ensures a[i] == b[i] {
      SliceIndex(m, base, base + len, at + i);
      SliceIndex(m', base', base' + len, at + i);
    }
  }

  lemma SliceOfDrop(m: seq<byte>, at: nat, lo: nat, hi: nat)
    requires at <= |m| && lo <= hi <= |m| - at
    ensures m[at..][lo..hi] == m[at + lo..at + hi]
  {
  }
}
