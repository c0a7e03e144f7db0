/** The structures of the image format, field by field, and the places from which the model reads them. */
module XipStructs {
  import opened Arithmetic
  import opened Bytes
  import opened CStrings
  import opened CStructs
  import opened XipTypes
  import opened XipLayout
  import opened XipToc
  import opened XipFind
  import D = DdContainer

  // ---- entries of the tables

  /** P9XipToc. */
  function TocStruct(): seq<Field> {
    [Field("iv_id", 4, 1), Field("iv_data", 4, 1), Field("iv_type", 1, 1), Field("iv_section", 1, 1),
     Field("iv_elements", 1, 1), Field("iv_pad", 1, 1)]
  }

  /** P9XipHashedToc. */
  function HashedStruct(): seq<Field> {
    [Field("iv_hash", 4, 1), Field("iv_offset", 2, 1), Field("iv_type", 1, 1), Field("iv_elements", 1, 1)]
  }

  /** p9_dd_block. */
  function DdBlockStruct(): seq<Field> {
    [Field("iv_offset", 4, 1), Field("iv_size", 4, 1), Field("iv_dd", 1, 1), Field("iv_reserved", 1, 3)]
  }

  /** p9_dd_cont without its blocks. */
  function DdContStruct(): seq<Field> {
    [Field("iv_magic", 4, 1), Field("iv_num", 1, 1), Field("iv_reserved", 1, 3)]
  }

  /** A TOC entry is read field by field from where the structure has them. */
  lemma TocEntryFields(m: seq<byte>, p: nat)
    requires p + TOC_ENTRY <= |m|
    ensures var f := TocStruct();
      && SizeOf(f) == TOC_ENTRY && TocAt(m, p).id == U32At(m, p + OffsetAt(f, 0))
      && TocAt(m, p).data == U32At(m, p + OffsetAt(f, 1)) && TocAt(m, p).typ == m[p + OffsetAt(f, 2)]
      && TocAt(m, p).section == m[p + OffsetAt(f, 3)] && TocAt(m, p).elements == m[p + OffsetAt(f, 4)]
      && TocAt(m, p).pad == m[p + OffsetAt(f, 5)]
  {
  }

  lemma HashedEntryFields(m: seq<byte>, p: nat)
    requires p + HASHED_ENTRY <= |m|
    ensures var f := HashedStruct();
      && SizeOf(f) == HASHED_ENTRY && HashedAt(m, p).hash == U32At(m, p + OffsetAt(f, 0))
      && HashedAt(m, p).offset == U16At(m, p + OffsetAt(f, 1)) && HashedAt(m, p).typ == m[p + OffsetAt(f, 2)]
      && HashedAt(m, p).elements == m[p + OffsetAt(f, 3)]
  {
  }

  lemma DdBlockFields(m: seq<byte>, p: nat)
    requires p + D.DD_BLOCK <= |m|
    ensures var f := DdBlockStruct();
      && SizeOf(f) == D.DD_BLOCK && D.HeaderAt(m, p).offset == U32At(m, p + OffsetAt(f, 0))
      && D.HeaderAt(m, p).size == U32At(m, p + OffsetAt(f, 1)) && D.HeaderAt(m, p).level == m[p + OffsetAt(f, 2)]
  {
  }

  /** A container starts with the letters DDCO and the number of its blocks; block headers follow its structure. */
  lemma DdContFields(m: seq<byte>)
    requires D.DD_HEADER <= |m|
    ensures var f := DdContStruct();
      && SizeOf(f) == D.DD_HEADER && (D.HasMagic(m) <==> m[..4] == Ascii("DDCO"))
      && D.Count(m) == m[OffsetAt(f, 1)] as int && D.MetaSize(m) == SizeOf(f) + SizeOf(DdBlockStruct()) * D.Count(m)
  {
    assert U32Bytes(0x4444434F) == Ascii("DDCO") by {
      assert U32At(Ascii("DDCO"), 0) == 0x4444434F;
      BytesOfWord(Ascii("DDCO"), 0);
    }
    BytesOfWord(m, 0);
  }

  /** Reading a word and storing it gives its bytes back. */
  lemma BytesOfWord(m: seq<byte>, p: nat)
    requires p + 4 <= |m|
    ensures U32Bytes(U32At(m, p)) == m[p..p + 4]
  {
    var hi, lo := U16At(m, p), U16At(m, p + 2);
    DivisionUnique(U32At(m, p), 0x1_0000, hi, lo);
    DivisionUnique(hi, 0x100, m[p] as int, m[p + 1] as int);
    DivisionUnique(lo, 0x100, m[p + 2] as int, m[p + 3] as int);
    assert m[p..p + 4] == [m[p], m[p + 1], m[p + 2], m[p + 3]];
  }

  // ---- tables as rows of structures

  /** The entries of a TOC one behind the other. */
  function TableBytes(t: seq<TocEntry>): (b: seq<byte>)
    ensures |b| == TOC_ENTRY * |t|
  {
    if t == [] then [] else TableBytes(t[..|t| - 1]) + TocBytes(t[|t| - 1])
  }

  function RecordBytes(t: seq<HashedToc>): (b: seq<byte>)
    ensures |b| == HASHED_ENTRY * |t|
  {
    if t == [] then [] else RecordBytes(t[..|t| - 1]) + HashedBytes(t[|t| - 1])
  }

  lemma TocFromBytes(m: seq<byte>, p: nat, e: TocEntry)
    requires p + TOC_ENTRY <= |m| && m[p..p + TOC_ENTRY] == TocBytes(e)
    ensures TocAt(m, p) == e
  {
    SpliceSame(m, p, TocBytes(e));
    TocWritten(m, p, e);
  }

  lemma HashedFromBytes(m: seq<byte>, p: nat, h: HashedToc)
    requires p + HASHED_ENTRY <= |m| && m[p..p + HASHED_ENTRY] == HashedBytes(h)
    ensures HashedAt(m, p) == h
  {
    SpliceSame(m, p, HashedBytes(h));
    HashedWritten(m, p, h);
  }

  lemma SpliceSame(m: seq<byte>, p: nat, d: seq<byte>)
    requires p + |d| <= |m| && m[p..p + |d|] == d
    ensures Splice(m, p, d) == m
  {
  }

  lemma {:induction false} TableEntryAt(m: seq<byte>, base: nat, t: seq<TocEntry>, k: nat)
    requires base + TOC_ENTRY * |t| <= |m| && m[base..base + TOC_ENTRY * |t|] == TableBytes(t) && k < |t|
    ensures TocAt(m, base + TOC_ENTRY * k) == t[k]
    decreases |t|
  {
    var n := |t| - 1;
    var before := TableBytes(t[..n]);
    BehindPrefix(m, base, before, TocBytes(t[n]));
    if k < n {
      TableEntryAt(m, base, t[..n], k);
    } else {
      TocFromBytes(m, base + TOC_ENTRY * n, t[n]);
    }
  }

  lemma {:induction false} RecordAt(m: seq<byte>, base: nat, t: seq<HashedToc>, k: nat)
    requires base + HASHED_ENTRY * |t| <= |m| && m[base..base + HASHED_ENTRY * |t|] == RecordBytes(t) && k < |t|
    ensures HashedAt(m, base + HASHED_ENTRY * k) == t[k]
    decreases |t|
  {
    var n := |t| - 1;
    var before := RecordBytes(t[..n]);
    BehindPrefix(m, base, before, HashedBytes(t[n]));
    if k < n {
      RecordAt(m, base, t[..n], k);
    } else {
      HashedFromBytes(m, base + HASHED_ENTRY * n, t[n]);
    }
  }

  lemma BehindPrefix(m: seq<byte>, base: nat, a: seq<byte>, b: seq<byte>)
    requires base + |a| + |b| <= |m| && m[base..base + |a| + |b|] == a + b
    ensures m[base..base + |a|] == a && m[base + |a|..base + |a| + |b|] == b
  {
    var s := m[base..base + |a| + |b|];
    assert s[..|a|] == a && s[|a|..] == b;
  }

  lemma SliceOfBody(st: ImageState, i: nat, lo: nat, hi: nat)
    requires i < |st.secs| && SectionEnd(st.secs[i]) <= |st.mem| && lo <= hi <= st.secs[i].size
    ensures Body(st, i)[lo..hi] == st.mem[st.secs[i].offset + lo..st.secs[i].offset + hi]
  {
  }

  lemma TocViewOfBytes(m: seq<byte>, base: nat, t: seq<TocEntry>)
    requires base + TOC_ENTRY * |t| <= |m| && m[base..base + TOC_ENTRY * |t|] == TableBytes(t)
    ensures TocView(m, base, |t|) == t
  {
    forall k | 0 <= k < |t| ensures TocView(m, base, |t|)[k] == t[k] {
      TableEntryAt(m, base, t, k);
    }
  }

  lemma HashedViewOfBytes(m: seq<byte>, base: nat, t: seq<HashedToc>)
    requires base + HASHED_ENTRY * |t| <= |m| && m[base..base + HASHED_ENTRY * |t|] == RecordBytes(t)
    ensures HashedView(m, base, |t|) == t
  {
    forall k | 0 <= k < |t| ensures HashedView(m, base, |t|)[k] == t[k] {
      RecordAt(m, base, t, k);
    }
  }

  /** The table of contents is what its section holds: as many whole entries as fit it, one behind the other. */
  lemma TocOfBytes(st: ImageState, t: seq<TocEntry>)
    requires Bounded(st) && TOC_ENTRY * |t| <= st.secs[TOC].size < TOC_ENTRY * (|t| + 1)
    requires SectionEnd(st.secs[TOC]) <= |st.mem| && Body(st, TOC)[..TOC_ENTRY * |t|] == TableBytes(t)
    ensures Toc(st) == t
  {
    var base, len := st.secs[TOC].offset, TOC_ENTRY * |t|;
    SliceOfBody(st, TOC, 0, len);
    assert InImage(st.secs[TOC], st.size);
    DivisionUnique(st.secs[TOC].size, TOC_ENTRY, |t|, st.secs[TOC].size - len);
    TocViewOfBytes(st.mem, base, t);
  }

  lemma FixedTocOfBytes(st: ImageState, t: seq<HashedToc>)
    requires Bounded(st) && HASHED_ENTRY * |t| <= st.secs[FIXED_TOC].size < HASHED_ENTRY * (|t| + 1)
    requires SectionEnd(st.secs[FIXED_TOC]) <= |st.mem|
    requires Body(st, FIXED_TOC)[..HASHED_ENTRY * |t|] == RecordBytes(t)
    ensures FixedToc(st) == t
  {
    var base, len := st.secs[FIXED_TOC].offset, HASHED_ENTRY * |t|;
    SliceOfBody(st, FIXED_TOC, 0, len);
    assert InImage(st.secs[FIXED_TOC], st.size);
    DivisionUnique(st.secs[FIXED_TOC].size, HASHED_ENTRY, |t|, st.secs[FIXED_TOC].size - len);
    HashedViewOfBytes(st.mem, base, t);
  }

  /** The name of an entry is what .strings holds from its offset up to the first NUL. */
  lemma NameOfBytes(st: ImageState, e: TocEntry, name: seq<byte>)
    requires Bounded(st) && 0 !in name && e.id + |name| < st.secs[STRINGS].size
    requires SectionEnd(st.secs[STRINGS]) <= |st.mem|
    requires Body(st, STRINGS)[e.id..e.id + |name| + 1] == name + [0]
    ensures Name(st, e) == name
  {
    var s := st.secs[STRINGS];
    var at, end := s.offset + e.id, s.offset + e.id + |name|;
    SliceOfBody(st, STRINGS, e.id, e.id + |name| + 1);
    var nul: seq<byte> := [0];
    BehindPrefix(st.mem, at, name, nul);
    assert st.mem[end..end + |nul|][0] == nul[0];
    forall p | at <= p < end ensures st.mem[p] != 0 {
      assert st.mem[at..end][p - at] == name[p - at];
    }
    CStringEnds(st.mem, at, end);
  }

  // ---- the header

  /** P9XipHeader. The fields that p9_xip_find knows by name bear that name. */
  function HeaderStruct(): (fields: seq<Field>)
    ensures |fields| == 18
  {
    [Field("magic", 8, 1), Field("iv_L1LoaderAddr", 8, 1), Field("iv_L2LoaderAddr", 8, 1),
     Field("iv_kernelAddr", 8, 1), Field("link_address", 8, 1), Field("iv_reserved64", 8, 3),
     Field("iv_section", 12, 15), Field("image_size", 4, 1), Field("build_date", 4, 1), Field("build_time", 4, 1),
     Field("build_tag", 1, 20), Field("header_version", 1, 1), Field("toc_normalized", 1, 1),
     Field("toc_sorted", 1, 1), Field("iv_reserved8", 1, 5), Field("build_user", 1, 16), Field("build_host", 1, 40),
     Field("iv_reservedChar", 1, 8)]
  }

  /** The fields that are known by name. */
  function NamedFields(): (indices: seq<nat>)
    ensures |indices| == 11
  {
    [0, 4, 7, 8, 9, 10, 11, 12, 13, 15, 16]
  }

  const XIP_UINT8: byte := 0x01
  const XIP_UINT32: byte := 0x03
  const XIP_UINT64: byte := 0x04
  const XIP_STRING: byte := 0x09

  /** The type under which a field is found: characters are a string, a number goes by its width. */
  function TypeOf(f: Field): byte {
    if f.count > 1 then XIP_STRING
    else if f.width == 8 then XIP_UINT64
    else if f.width == 4 then XIP_UINT32
    else XIP_UINT8
  }

  /** Where the fields lie, and where the structure ends. */
  function HeaderPlaces(): (places: seq<nat>)
    ensures |places| == 19
  {
    [0, 8, 16, 24, 32, 40, 64, 244, 248, 252, 256, 276, 277, 278, 279, 284, 300, 340, 348]
  }

  lemma PlacesFollow(n: nat)
    requires n < 18
    ensures HeaderPlaces()[n + 1] == HeaderPlaces()[n] + HeaderStruct()[n].Size()
  {
  }

  lemma {:induction false} HeaderOffsets(n: nat)
    requires n <= 18
    ensures OffsetAt(HeaderStruct(), n) == HeaderPlaces()[n]
  {
    if n > 0 {
      HeaderOffsets(n - 1);
      PlacesFollow(n - 1);
    }
  }

  /** Row j of the built-in table of p9_xip_find is field NamedFields()[j], at its place. */
  lemma TableRow(j: nat)
    requires j < 11
    ensures var f := HeaderStruct()[NamedFields()[j]];
      HeaderFields()[j] == (f.name, HeaderPlaces()[NamedFields()[j]], TypeOf(f))
  {
  }

  /** The structure ends at 348; with the padding to its 8-byte alignment that is the least size of an image. */
  lemma HeaderEnds()
    ensures SizeOf(HeaderStruct()) == HEADER_FIELDS && FinalSize(SizeOf(HeaderStruct())) == HEADER_SIZE
  {
    HeaderOffsets(18);
    ModIsRemainder(348, FINAL_ALIGNMENT);
  }

  /** The names of the common sections, in the order of the section table. */
  function SectionNames(): (names: seq<string>)
    ensures |names| == 5
  {
    [".header", ".fixed", ".fixedtoc", ".toc", ".strings"]
  }

  /** The numbers by which the model knows them, out of as many as the header has entries for. */
  lemma SectionNumbers()
    ensures SectionNames()[HEADER] == ".header" && SectionNames()[FIXED] == ".fixed"
    ensures SectionNames()[FIXED_TOC] == ".fixedtoc" && SectionNames()[TOC] == ".toc"
    ensures SectionNames()[STRINGS] == ".strings"
    ensures HeaderStruct()[6] == Field("iv_section", 12, SECTIONS)
  {
  }

  /** The built-in table gives for each of these fields its name, its place in the structure and its type. */
  lemma TableIsStruct(j: nat)
    requires j < 11
    ensures var n := NamedFields()[j];
      && HeaderFields()[j] == (HeaderStruct()[n].name, OffsetAt(HeaderStruct(), n), TypeOf(HeaderStruct()[n]))
      && OffsetAt(HeaderStruct(), n) + HeaderStruct()[n].Size() <= SizeOf(HeaderStruct()) == HEADER_FIELDS
  {
    TableRow(j);
    HeaderOffsets(NamedFields()[j]);
    HeaderOffsets(18);
    OffsetsGrow(HeaderStruct(), NamedFields()[j], 18);
  }

  // ---- looking header fields up

  /** No two rows have the same name. */
  lemma NamesDiffer(i: nat, j: nat)
    requires i < j < 11
    ensures Ascii(HeaderFields()[i].0) != Ascii(HeaderFields()[j].0)
  {
    var a, b := HeaderFields()[i].0, HeaderFields()[j].0;
    assert |a| != |b| || a[0] != b[0] || a[6] != b[6];
    assert |Ascii(a)| == |a| && |Ascii(b)| == |b|;
    assert |a| == |b| ==> Ascii(a)[0] != Ascii(b)[0] || Ascii(a)[6] != Ascii(b)[6];
  }

  lemma RowFound(j: nat, key: seq<byte>)
    requires j < 11 && key == Ascii(HeaderFields()[j].0)
    ensures HeaderIndex(HeaderFields(), key, 0) == j
  {
    var r := HeaderIndex(HeaderFields(), key, 0);
    assert r != -1;
    if r < j {
      NamesDiffer(r, j);
    } else if j < r {
      NamesDiffer(j, r);
    }
  }

  /** The j-th field that is known by name. */
  function Named(j: nat): Field
    requires j < 11
  {
    HeaderStruct()[NamedFields()[j]]
  }

  /** Its place in the header. */
  function PlaceOf(j: nat): nat
    requires j < 11
  {
    OffsetAt(HeaderStruct(), NamedFields()[j])
  }

  /** The mini-TOC has no answer for the name. */
  ghost predicate NotInFixed(st: ImageState, key: seq<byte>, hash: Hash)
    requires Bounded(st)
  {
    st.secs[FIXED].size == 0 || forall k :: 0 <= k < |FixedToc(st)| ==> FixedToc(st)[k].hash != hash(key)
  }

  /** The item of a header field: no entry, no name, one element. */
  function HeaderItem(st: ImageState, place: nat, typ: byte): Item
    requires |st.secs| == SECTIONS
  {
    var at := st.secs[HEADER].offset + place;
    Item(None, st.link + at, at, None, typ, 1, true)
  }

  lemma RowAnswer(st: ImageState, j: nat, key: seq<byte>, hash: Hash, row: (string, nat, byte))
    requires Layout(st) && QuickCheck(st, true) == Ok && st.secs[TOC].size == 0 && NotInFixed(st, key, hash)
    requires HeaderIndex(HeaderFields(), key, 0) == j && row == HeaderFields()[j]
    ensures Find(st, key, hash) == Success(HeaderItem(st, row.1, row.2))
  {
  }

  lemma NamedRow(j: nat)
    requires j < 11
    ensures HeaderFields()[j] == (Named(j).name, PlaceOf(j), TypeOf(Named(j)))
    ensures PlaceOf(j) + Named(j).Size() <= SizeOf(HeaderStruct()) == HEADER_FIELDS
  {
    TableIsStruct(j);
  }

  /** On an image without a TOC a header field that is known by name, and for which the mini-TOC has no answer, is
      found at its place in the header structure, with its type and one element. */
  lemma HeaderFieldFound(st: ImageState, j: nat, hash: Hash)
    requires Layout(st) && QuickCheck(st, true) == Ok && st.secs[TOC].size == 0 && j < 11
    requires NotInFixed(st, Ascii(Named(j).name), hash)
    ensures Find(st, Ascii(Named(j).name), hash) == Success(HeaderItem(st, PlaceOf(j), TypeOf(Named(j))))
    ensures PlaceOf(j) + Named(j).Size() <= HEADER_FIELDS <= st.secs[HEADER].size
  {
    NamedRow(j);
    var row := HeaderFields()[j];
    RowFound(j, Ascii(row.0));
    RowAnswer(st, j, Ascii(row.0), hash, row);
  }

  /** No other name is that of a header field. */
  lemma HeaderFieldsAre(key: seq<byte>)
    ensures IsHeaderField(key) <==> exists j: nat :: j < 11 && key == Ascii(Named(j).name)
  {
    if IsHeaderField(key) {
      var f :| f in HeaderFields() && Ascii(f.0) == key;
      RowOfField(key, f);
    }
    forall j: nat | j < 11 && key == Ascii(Named(j).name) ensures IsHeaderField(key) {
      NamedRow(j);
      FieldOfRow(key, HeaderFields(), j);
    }
  }

  lemma RowOfField(key: seq<byte>, f: (string, nat, byte))
    requires f in HeaderFields() && Ascii(f.0) == key
    ensures exists j: nat :: j < 11 && key == Ascii(Named(j).name)
  {
    var fields := HeaderFields();
    var j: nat :| j < |fields| && fields[j] == f;
    NamedRow(j);
  }

  lemma FieldOfRow(key: seq<byte>, fields: seq<(string, nat, byte)>, j: nat)
    requires fields == HeaderFields() && j < |fields| && key == Ascii(fields[j].0)
    ensures IsHeaderField(key)
  {
    assert fields[j] in fields;
  }

  /** The check of every entry point: the header starts with the letters "XIP " and has version 9, and the image is
      normalized when that is asked for. */
  lemma QuickCheckIs(st: ImageState, needed: bool)
    requires st.magic / U32_LIMIT < U32_LIMIT
    ensures QuickCheck(st, needed) ==
      if U32Bytes(st.magic / U32_LIMIT) != Ascii("XIP ") || st.version != 9 then ImageError
      else if needed && !st.normalized then NotNormalized
      else Ok
  {
    var letters := Ascii("XIP ");
    assert U32At(letters, 0) == XIP_MAGIC;
    BytesOfWord(letters, 0);
    assert letters[0..4] == letters;
    if U32Bytes(st.magic / U32_LIMIT) == letters {
      assert U32At(U32Bytes(st.magic / U32_LIMIT), 0) == XIP_MAGIC;
    }
  }
}
