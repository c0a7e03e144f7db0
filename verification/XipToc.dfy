/** The table of contents as it lies in memory: 12-byte entries, names in .strings, 8-byte hashed records. */
module XipToc {
  import opened Bytes
  import opened Memory
  import opened XipTypes

  datatype TocEntry = TocEntry(id: u32, data: u32, typ: byte, section: byte, elements: byte, pad: byte)

  datatype HashedToc = HashedToc(hash: u32, offset: u16, typ: byte, elements: byte)

  function TocAt(m: seq<byte>, p: nat): TocEntry
    requires p + TOC_ENTRY <= |m|
  {
    TocEntry(U32At(m, p), U32At(m, p + 4), m[p + 8], m[p + 9], m[p + 10], m[p + 11])
  }

  /** The entry in memory at position p. */
  method ReadToc(mem: array<byte>, p: nat) returns (e: TocEntry)
    requires p + TOC_ENTRY <= mem.Length
    ensures e == TocAt(mem[..], p)
  {
    e := TocEntry(ReadU32(mem, p), ReadU32(mem, p + 4), mem[p + 8], mem[p + 9], mem[p + 10], mem[p + 11]);
  }

  function TocBytes(e: TocEntry): (b: seq<byte>)
    ensures |b| == TOC_ENTRY
  {
    U32Bytes(e.id) + U32Bytes(e.data) + [e.typ, e.section, e.elements, e.pad]
  }

  function HashedAt(m: seq<byte>, p: nat): HashedToc
    requires p + HASHED_ENTRY <= |m|
  {
    HashedToc(U32At(m, p), U16At(m, p + 4), m[p + 6], m[p + 7])
  }

  function HashedBytes(h: HashedToc): (b: seq<byte>)
    ensures |b| == HASHED_ENTRY
  {
    U32Bytes(h.hash) + U16Bytes(h.offset) + [h.typ, h.elements]
  }

  /** An entry written to memory is read back, and leaves every entry it does not overlap alone. */
  lemma TocWritten(m: seq<byte>, p: nat, e: TocEntry)
    requires p + TOC_ENTRY <= |m|
    ensures TocAt(Splice(m, p, TocBytes(e)), p) == e
    ensures forall q :: 0 <= q && q + TOC_ENTRY <= |m| && (q + TOC_ENTRY <= p || p + TOC_ENTRY <= q) ==>
      TocAt(Splice(m, p, TocBytes(e)), q) == TocAt(m, q)
  {
    var b, r := TocBytes(e), Splice(m, p, TocBytes(e));
    SpliceBytes(m, p, b);
    WordAt(r, p, b, 0);
    WordAt(r, p, b, 4);
    assert U32At(b, 0) == U32At(U32Bytes(e.id), 0);
    assert U32At(b, 4) == U32At(U32Bytes(e.data), 0);
  }

  lemma WordAt(r: seq<byte>, p: nat, b: seq<byte>, k: nat)
    requires p + |b| <= |r| && k + 4 <= |b| && forall i :: 0 <= i < |b| ==> r[p + i] == b[i]
    ensures U32At(r, p + k) == U32At(b, k)
  {
    assert r[p + k] == b[k] && r[p + (k + 1)] == b[k + 1] && r[p + (k + 2)] == b[k + 2] && r[p + (k + 3)] == b[k + 3];
  }

  lemma HashedWritten(m: seq<byte>, p: nat, h: HashedToc)
    requires p + HASHED_ENTRY <= |m|
    ensures HashedAt(Splice(m, p, HashedBytes(h)), p) == h
    ensures forall q :: 0 <= q && q + HASHED_ENTRY <= |m| && (q + HASHED_ENTRY <= p || p + HASHED_ENTRY <= q) ==>
      HashedAt(Splice(m, p, HashedBytes(h)), q) == HashedAt(m, q)
  {
    var b, r := HashedBytes(h), Splice(m, p, HashedBytes(h));
    SpliceBytes(m, p, b);
    WordAt(r, p, b, 0);
    assert U32At(b, 0) == U32At(U32Bytes(h.hash), 0);
    assert U16At(b, 4) == U16At(U16Bytes(h.offset), 0);
    assert r[p + 4] == b[4] && r[p + 5] == b[5] && r[p + 6] == b[6] && r[p + 7] == b[7];
  }

  // ---- tables

  /** n consecutive TOC entries from `base` on. */
  function TocView(m: seq<byte>, base: nat, n: nat): (t: seq<TocEntry>)
    requires base + TOC_ENTRY * n <= |m|
    ensures |t| == n && forall k :: 0 <= k < n ==> t[k] == TocAt(m, base + TOC_ENTRY * k)
  {
    seq(n, k requires 0 <= k < n => TocAt(m, base + TOC_ENTRY * k))
  }

  function HashedView(m: seq<byte>, base: nat, n: nat): (t: seq<HashedToc>)
    requires base + HASHED_ENTRY * n <= |m|
    ensures |t| == n && forall k :: 0 <= k < n ==> t[k] == HashedAt(m, base + HASHED_ENTRY * k)
  {
    seq(n, k requires 0 <= k < n => HashedAt(m, base + HASHED_ENTRY * k))
  }

  /** Tables move with their bytes. */
  lemma TocViewMoves(m: seq<byte>, base: nat, m': seq<byte>, base': nat, n: nat, len: nat)
    requires TOC_ENTRY * n <= len && base + len <= |m| && base' + len <= |m'|
    requires m[base..base + len] == m'[base'..base' + len]
    ensures TocView(m, base, n) == TocView(m', base', n)
  {
    forall k | 0 <= k < n ensures TocAt(m, base + TOC_ENTRY * k) == TocAt(m', base' + TOC_ENTRY * k) {
      SameBytes(m, base, m', base', len, TOC_ENTRY * k, TOC_ENTRY);
      TocAtMoves(m, base + TOC_ENTRY * k, m', base' + TOC_ENTRY * k);
    }
  }

  lemma HashedViewMoves(m: seq<byte>, base: nat, m': seq<byte>, base': nat, n: nat, len: nat)
    requires HASHED_ENTRY * n <= len && base + len <= |m| && base' + len <= |m'|
    requires m[base..base + len] == m'[base'..base' + len]
    ensures HashedView(m, base, n) == HashedView(m', base', n)
  {
    forall k | 0 <= k < n ensures HashedAt(m, base + HASHED_ENTRY * k) == HashedAt(m', base' + HASHED_ENTRY * k) {
      SameBytes(m, base, m', base', len, HASHED_ENTRY * k, HASHED_ENTRY);
      HashedAtMoves(m, base + HASHED_ENTRY * k, m', base' + HASHED_ENTRY * k);
    }
  }

  lemma TocAtMoves(m: seq<byte>, p: nat, m': seq<byte>, q: nat)
    requires p + TOC_ENTRY <= |m| && q + TOC_ENTRY <= |m'| && m[p..p + TOC_ENTRY] == m'[q..q + TOC_ENTRY]
    ensures TocAt(m, p) == TocAt(m', q)
  {
    TocAtSlice(m, p);
    TocAtSlice(m', q);
  }

  lemma TocAtSlice(m: seq<byte>, p: nat)
    requires p + TOC_ENTRY <= |m|
    ensures TocAt(m, p) == TocAt(m[p..p + TOC_ENTRY], 0)
  {
    WordAtSlice(m, p, TOC_ENTRY, 0);
    WordAtSlice(m, p, TOC_ENTRY, 4);
    SliceIndex(m, p, p + TOC_ENTRY, 8);
    SliceIndex(m, p, p + TOC_ENTRY, 9);
    SliceIndex(m, p, p + TOC_ENTRY, 10);
    SliceIndex(m, p, p + TOC_ENTRY, 11);
  }

  lemma HashedAtMoves(m: seq<byte>, p: nat, m': seq<byte>, q: nat)
    requires p + HASHED_ENTRY <= |m| && q + HASHED_ENTRY <= |m'| && m[p..p + HASHED_ENTRY] == m'[q..q + HASHED_ENTRY]
    ensures HashedAt(m, p) == HashedAt(m', q)
  {
    HashedAtSlice(m, p);
    HashedAtSlice(m', q);
  }

  lemma HashedAtSlice(m: seq<byte>, p: nat)
    requires p + HASHED_ENTRY <= |m|
    ensures HashedAt(m, p) == HashedAt(m[p..p + HASHED_ENTRY], 0)
  {
    WordAtSlice(m, p, HASHED_ENTRY, 0);
    SliceIndex(m, p, p + HASHED_ENTRY, 4);
    SliceIndex(m, p, p + HASHED_ENTRY, 5);
    SliceIndex(m, p, p + HASHED_ENTRY, 6);
    SliceIndex(m, p, p + HASHED_ENTRY, 7);
  }

  lemma WordAtSlice(m: seq<byte>, p: nat, len: nat, k: nat)
    requires p + len <= |m| && k + 4 <= len
    ensures U32At(m, p + k) == U32At(m[p..p + len], k)
  {
    SliceIndex(m, p, p + len, k);
    SliceIndex(m, p, p + len, k + 1);
    SliceIndex(m, p, p + len, k + 2);
    SliceIndex(m, p, p + len, k + 3);
  }
}
