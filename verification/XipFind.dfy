/** p9_xip_find: decode, the three searches and their dispatch, and validation of the TOC by self-lookup. */
module XipFind {
  import opened Bytes
  import opened CStrings
  import opened XipTypes
  import opened XipLayout
  import opened XipToc
  import opened XipSearch

  /** A decoded item. Positions are offsets from the first byte of the image. */
  datatype Item = Item(
    toc: Option<nat>,
    address: nat,
    imageData: nat,
    id: Option<seq<byte>>,
    typ: byte,
    elements: byte,
    partial: bool)

  type Hash = seq<byte> -> u32

  ghost function Toc(st: ImageState): seq<TocEntry>
    requires Bounded(st)
  {
    assert InImage(st.secs[TOC], st.size);
    TocView(st.mem, st.secs[TOC].offset, st.secs[TOC].size / TOC_ENTRY)
  }

  ghost function FixedToc(st: ImageState): seq<HashedToc>
    requires Bounded(st)
  {
    assert InImage(st.secs[FIXED_TOC], st.size);
    HashedView(st.mem, st.secs[FIXED_TOC].offset, st.secs[FIXED_TOC].size / HASHED_ENTRY)
  }

  /** The name of an entry: the string at its offset in .strings. */
  function Name(st: ImageState, e: TocEntry): seq<byte>
    requires |st.secs| == SECTIONS
  {
    CString(st.mem, st.secs[STRINGS].offset + e.id)
  }

  ghost function Names(st: ImageState): (names: seq<seq<byte>>)
    requires Bounded(st)
    ensures |names| == |Toc(st)| && forall k :: 0 <= k < |names| ==> names[k] == Name(st, Toc(st)[k])
  {
    seq(|Toc(st)|, k requires 0 <= k < |Toc(st)| => Name(st, Toc(st)[k]))
  }

  /** The strings section is there and closed by a NUL, so that every string in it ends in it. */
  ghost predicate StringsEnd(st: ImageState)
    requires Bounded(st)
  {
    var s := st.secs[STRINGS];
    0 < s.size && SectionEnd(s) <= |st.mem| && st.mem[SectionEnd(s) - 1] == 0
  }

  /** Every TOC name starts in it. */
  ghost predicate NamesOk(st: ImageState)
    requires Bounded(st)
  {
    StringsEnd(st) && forall k :: 0 <= k < |Toc(st)| ==> Toc(st)[k].id < st.secs[STRINGS].size
  }

  /** Decode the entry with index k. */
  function Decode(st: ImageState, e: TocEntry, k: nat): Result<Item>
    requires |st.secs| == SECTIONS
  {
    if !st.normalized then Failure(NotNormalized)
    else if e.section as int >= SECTIONS then Failure(InvalidArgument)
    else
      var section := st.secs[e.section as int];
      if section.size == 0 then Failure(DataNotPresent)
      else
        var at := section.offset + e.data;
        Success(Item(Some(k), st.link + at, at, Some(Name(st, e)), e.typ, e.elements, false))
  }

  /** Index of the first record with this hash, or -1. */
  function HashIndex(records: seq<HashedToc>, hash: u32, from: nat): (r: int)
    requires from <= |records|
    ensures r == -1 <==> forall k :: from <= k < |records| ==> records[k].hash != hash
    ensures r != -1 ==> from <= r < |records| && records[r].hash == hash
    ensures r != -1 ==> forall k :: from <= k < r ==> records[k].hash != hash
    decreases |records| - from
  {
    if from == |records| then -1 else if records[from].hash == hash then from else HashIndex(records, hash, from + 1)
  }

  /** Look an item up in the hashed mini-TOC of .fixed. */
  ghost function FixedFind(st: ImageState, key: seq<byte>, hash: Hash): Result<Item>
    requires Bounded(st)
  {
    var r := HashIndex(FixedToc(st), hash(key), 0);
    if r == -1 then Failure(ItemNotFound)
    else if st.secs[FIXED].size == 0 then Failure(DataNotPresent)
    else
      var record := FixedToc(st)[r];
      var at := st.secs[FIXED].offset + record.offset;
      Success(Item(None, st.link + at, at, None, record.typ, record.elements, true))
  }

  /** The built-in table of header fields: name, offset in the header, type. */
  function HeaderFields(): (fields: seq<(string, nat, byte)>)
    ensures |fields| == 11
  {
    [("magic", 0, 4), ("link_address", 32, 4), ("image_size", 244, 3), ("build_date", 248, 3), ("build_time", 252, 3),
     ("build_tag", 256, 9), ("header_version", 276, 1), ("toc_normalized", 277, 1), ("toc_sorted", 278, 1),
     ("build_user", 284, 9), ("build_host", 300, 9)]
  }

  function Ascii(s: string): (b: seq<byte>)
    ensures |b| == |s|
  {
    seq(|s|, i requires 0 <= i < |s| => (s[i] as int % 256) as byte)
  }

  function HeaderIndex(fields: seq<(string, nat, byte)>, key: seq<byte>, from: nat): (r: int)
    requires from <= |fields|
    ensures r == -1 <==> forall k :: from <= k < |fields| ==> Ascii(fields[k].0) != key
    ensures r != -1 ==> from <= r < |fields| && Ascii(fields[r].0) == key
    decreases |fields| - from
  {
    if from == |fields| then -1 else if Ascii(fields[from].0) == key then from else HeaderIndex(fields, key, from + 1)
  }

  function HeaderFind(st: ImageState, key: seq<byte>): Result<Item>
    requires |st.secs| == SECTIONS
  {
    var r := HeaderIndex(HeaderFields(), key, 0);
    if r == -1 then Failure(ItemNotFound)
    else if st.secs[HEADER].size == 0 then Failure(DataNotPresent)
    else
      var at := st.secs[HEADER].offset + HeaderFields()[r].1;
      Success(Item(None, st.link + at, at, None, HeaderFields()[r].2, 1, true))
  }

  /** Where the full TOC's search ends: binary on a sorted TOC, linear otherwise. */
  ghost function SearchIndex(st: ImageState, key: seq<byte>): (r: int)
    requires Bounded(st)
    ensures r == -1 || 0 <= r < |Names(st)|
  {
    if st.sorted then BinaryIndex(Names(st), key, 0, |Names(st)| - 1) else LinearIndex(Names(st), key, 0)
  }

  /** p9_xip_find. */
  ghost function Find(st: ImageState, key: seq<byte>, hash: Hash): Result<Item>
    requires Bounded(st)
  {
    if QuickCheck(st, true) != Ok then Failure(QuickCheck(st, true))
    else if st.secs[TOC].size == 0 then
      var r := FixedFind(st, key, hash);
      if r.Success? then r else HeaderFind(st, key)
    else
      var k := SearchIndex(st, key);
      if k == -1 then Failure(ItemNotFound) else Decode(st, Toc(st)[k], k)
  }

  /** Return code of p9_xip_find when no item is wanted: without a TOC it does not look at the data then. */
  ghost function LookupRc(st: ImageState, key: seq<byte>, hash: Hash): Rc
    requires Bounded(st)
  {
    if QuickCheck(st, true) != Ok then QuickCheck(st, true)
    else if st.secs[TOC].size == 0 then
      if HashIndex(FixedToc(st), hash(key), 0) != -1 || HeaderIndex(HeaderFields(), key, 0) != -1 then Ok
      else ItemNotFound
    else
      var k := SearchIndex(st, key);
      if k == -1 then ItemNotFound
      else
        var item := Decode(st, Toc(st)[k], k);
        if item.Failure? then item.rc else Ok
  }

  /** The lookup without an item succeeds exactly where the one with an item does, and for the names that have
      a record in the mini-TOC although .toc and .fixed are gone. */
  lemma LookupOnlyIff(st: ImageState, key: seq<byte>, hash: Hash)
    requires Layout(st)
    ensures LookupRc(st, key, hash) == Ok <==>
      || Find(st, key, hash).Success?
      || (QuickCheck(st, true) == Ok && st.secs[TOC].size == 0 && st.secs[FIXED].size == 0
          && exists k :: 0 <= k < |FixedToc(st)| && FixedToc(st)[k].hash == hash(key))
  {
  }

  /** The TOC has an entry for the name; without a TOC, the mini-TOC or the table of header fields has one. */
  ghost predicate IsIndexed(st: ImageState, key: seq<byte>, hash: Hash)
    requires Bounded(st)
  {
    if st.secs[TOC].size != 0 then SearchIndex(st, key) != -1
    else HashIndex(FixedToc(st), hash(key), 0) != -1 || IsHeaderField(key)
  }

  /** The call without an item is documented to tell whether the name is indexed. It does, if and only if it is not
      the case that there is a TOC with an entry for the name that does not decode. */
  lemma LookupIsIndexedIff(st: ImageState, key: seq<byte>, hash: Hash)
    requires Bounded(st) && QuickCheck(st, true) == Ok
    ensures (LookupRc(st, key, hash) == Ok <==> IsIndexed(st, key, hash)) <==>
      !(st.secs[TOC].size != 0 && SearchIndex(st, key) != -1
        && Decode(st, Toc(st)[SearchIndex(st, key)], SearchIndex(st, key)).Failure?)
  {
    HeaderIndexFinds(HeaderFields(), key);
  }

  /** A lookup that the header check refuses reports that, with an item or without. */
  lemma FindRefuses(st: ImageState, key: seq<byte>, hash: Hash)
    requires Bounded(st) && QuickCheck(st, true) != Ok
    ensures Find(st, key, hash) == Failure(QuickCheck(st, true)) && LookupRc(st, key, hash) == QuickCheck(st, true)
  {
  }

  /** Without an item the answer is the same while there is a TOC; without one the name is found or it is not. */
  lemma LookupAnswers(st: ImageState, key: seq<byte>, hash: Hash)
    requires Bounded(st) && QuickCheck(st, true) == Ok
    ensures st.secs[TOC].size != 0 ==>
      LookupRc(st, key, hash) == if Find(st, key, hash).Success? then Ok else Find(st, key, hash).rc
    ensures st.secs[TOC].size == 0 ==> LookupRc(st, key, hash) == if IsIndexed(st, key, hash) then Ok else ItemNotFound
  {
    HeaderIndexFinds(HeaderFields(), key);
  }

  /** The mini-TOC has no answer without a record that has the name's hash. */
  lemma NoRecord(st: ImageState, key: seq<byte>, hash: Hash)
    requires Bounded(st) && forall i :: 0 <= i < |FixedToc(st)| ==> FixedToc(st)[i].hash != hash(key)
    ensures FixedFind(st, key, hash) == Failure(ItemNotFound)
  {
  }

  /** Otherwise it answers from the first one, when .fixed is there. */
  lemma FirstRecordAnswers(st: ImageState, key: seq<byte>, hash: Hash, k: nat)
    requires Bounded(st) && k < |FixedToc(st)| && FixedToc(st)[k].hash == hash(key)
    requires forall i :: 0 <= i < k ==> FixedToc(st)[i].hash != hash(key)
    ensures st.secs[FIXED].size == 0 ==> FixedFind(st, key, hash) == Failure(DataNotPresent)
    ensures st.secs[FIXED].size != 0 ==> FixedFind(st, key, hash).Success?
    ensures st.secs[FIXED].size != 0 ==>
      var item, record := FixedFind(st, key, hash).value, FixedToc(st)[k];
      && item.imageData == st.secs[FIXED].offset + record.offset && item.address == st.link + item.imageData
      && item.typ == record.typ && item.elements == record.elements
      && item.partial && item.toc.None? && item.id.None?
  {
  }

  /** What is found through a TOC: an entry with this name, at its offset in its section, and the full item. */
  lemma FoundInToc(st: ImageState, key: seq<byte>, hash: Hash)
    requires Bounded(st) && st.secs[TOC].size != 0 && Find(st, key, hash).Success?
    ensures var item := Find(st, key, hash).value;
      && item.toc.Some? && item.toc.value < |Toc(st)| && item.id == Some(key) && !item.partial
      && var e := Toc(st)[item.toc.value];
         && Name(st, e) == key && item.typ == e.typ && item.elements == e.elements
         && e.section as int < SECTIONS && item.imageData == st.secs[e.section as int].offset + e.data
         && item.address == st.link + item.imageData
  {
    var k := SearchIndex(st, key);
    assert Names(st)[k] == Name(st, Toc(st)[k]);
  }

  /** The key names a field of the header. */
  ghost predicate IsHeaderField(key: seq<byte>) {
    exists f :: f in HeaderFields() && Ascii(f.0) == key
  }

  /** On an image without a TOC exactly the names that have a record in the mini-TOC, with .fixed there, and
      the names of header fields are still found. */
  lemma FindWithoutToc(st: ImageState, key: seq<byte>, hash: Hash)
    requires Layout(st) && QuickCheck(st, true) == Ok && st.secs[TOC].size == 0
    ensures Find(st, key, hash).Success? <==>
      (st.secs[FIXED].size != 0 && exists k :: 0 <= k < |FixedToc(st)| && FixedToc(st)[k].hash == hash(key))
        || IsHeaderField(key)
  {
    var fields := HeaderFields();
    HeaderIndexFinds(fields, key);
  }

  /** All other names are not found. */
  lemma NotFoundWithoutToc(st: ImageState, key: seq<byte>, hash: Hash)
    requires Layout(st) && QuickCheck(st, true) == Ok && st.secs[TOC].size == 0 && Find(st, key, hash).Failure?
    ensures Find(st, key, hash).rc == ItemNotFound
  {
  }

  lemma HeaderIndexFinds(fields: seq<(string, nat, byte)>, key: seq<byte>)
    ensures HeaderIndex(fields, key, 0) != -1 <==> exists f :: f in fields && Ascii(f.0) == key
  {
    if HeaderIndex(fields, key, 0) != -1 {
      assert fields[HeaderIndex(fields, key, 0)] in fields;
    }
  }

  // ---- validation of the TOC by self-lookup

  /** One turn of the map over the TOC: decode entry k, then xipValidateTocEntry finds it by name and
      compares the entry found. */
  ghost function ValidateEntry(st: ImageState, hash: Hash, k: nat): Rc
    requires Bounded(st) && k < |Toc(st)|
  {
    var decoded := Decode(st, Toc(st)[k], k);
    if decoded.Failure? then decoded.rc
    else
      var found := Find(st, Names(st)[k], hash);
      if found.Failure? then found.rc else if found.value.toc != Some(k) then TocError else Ok
  }

  /** The first error of a mapping that stops there, or Ok. */
  function FirstError(codes: seq<Rc>, from: nat): (rc: Rc)
    requires from <= |codes|
    ensures rc == Ok <==> forall k :: from <= k < |codes| ==> codes[k] == Ok
    decreases |codes| - from
  {
    if from == |codes| then Ok else if codes[from] != Ok then codes[from] else FirstError(codes, from + 1)
  }

  ghost function EntryCodes(st: ImageState, hash: Hash): seq<Rc>
    requires Bounded(st)
  {
    seq(|Toc(st)|, k requires 0 <= k < |Toc(st)| => ValidateEntry(st, hash, k))
  }

  /** xipValidateTocEntry mapped over the TOC. */
  ghost function ValidateToc(st: ImageState, hash: Hash): Rc
    requires Bounded(st)
  {
    FirstError(EntryCodes(st, hash), 0)
  }

  /** Every entry's data section is present. */
  ghost predicate DataPresent(st: ImageState)
    requires Bounded(st)
  {
    forall k :: 0 <= k < |Toc(st)| ==> Decode(st, Toc(st)[k], k).Success?
  }

  lemma EntryFindsItself(st: ImageState, hash: Hash, k: nat)
    requires Bounded(st) && QuickCheck(st, true) == Ok && st.secs[TOC].size != 0 && DataPresent(st) && k < |Toc(st)|
    ensures ValidateEntry(st, hash, k) == Ok <==> SearchIndex(st, Names(st)[k]) == k
  {
    var found := SearchIndex(st, Names(st)[k]);
    assert Decode(st, Toc(st)[k], k).Success?;
    if found != -1 {
      assert Decode(st, Toc(st)[found], found).Success?;
    }
  }

  /** The search for entry k's name ends at entry k. */
  ghost predicate FoundAt(st: ImageState, k: int)
    requires Bounded(st) && 0 <= k < |Names(st)|
  {
    SearchIndex(st, Names(st)[k]) == k
  }

  /** Every entry is found by its own name. */
  ghost predicate FindThemselves(st: ImageState)
    requires Bounded(st)
  {
    forall k {:trigger FoundAt(st, k)} :: 0 <= k < |Names(st)| ==> FoundAt(st, k)
  }

  lemma ValidationIsSelfLookup(st: ImageState, hash: Hash)
    requires Bounded(st) && QuickCheck(st, true) == Ok && st.secs[TOC].size != 0 && DataPresent(st)
    ensures ValidateToc(st, hash) == Ok <==> FindThemselves(st)
  {
    var codes := EntryCodes(st, hash);
    forall k {:trigger FoundAt(st, k)} {:trigger codes[k]} | 0 <= k < |Names(st)|
      ensures codes[k] == Ok <==> FoundAt(st, k)
    {
      EntryFindsItself(st, hash, k);
    }
  }

  lemma SortedFindThemselves(st: ImageState)
    requires Bounded(st) && st.sorted
    ensures FindThemselves(st) <==> SelfLookup(Names(st), 0, |Names(st)| - 1)
  {
    var names := Names(st);
    var last := |names| - 1;
    forall k {:trigger FindsAt(names, k, 0, last)} {:trigger FoundAt(st, k)} | 0 <= k <= last
      ensures FoundAt(st, k) <==> FindsAt(names, k, 0, last)
    {
    }
  }

  lemma UnsortedFindThemselves(st: ImageState)
    requires Bounded(st) && !st.sorted
    ensures FindThemselves(st) <==> SelfLookupLinear(Names(st))
  {
    var names := Names(st);
    forall k {:trigger names[k]} {:trigger FoundAt(st, k)} | 0 <= k < |names|
      ensures FoundAt(st, k) <==> LinearIndex(names, names[k], 0) == k
    {
    }
  }

  /** Self-lookup validation is sound and complete: on an image whose TOC is flagged sorted and whose data
      is all present it succeeds exactly when the names are strictly increasing; when the flag is clear,
      exactly when no name occurs twice. */
  lemma ValidationIffSorted(st: ImageState, hash: Hash)
    requires Bounded(st) && QuickCheck(st, true) == Ok && st.secs[TOC].size != 0 && DataPresent(st)
    ensures ValidateToc(st, hash) == Ok <==> if st.sorted then StrictlyIncreasing(Names(st)) else Distinct(Names(st))
  {
    ValidationIsSelfLookup(st, hash);
    if st.sorted {
      SortedFindThemselves(st);
      SelfLookupIffSorted(Names(st));
    } else {
      UnsortedFindThemselves(st);
      LinearSelfLookupIffDistinct(Names(st));
    }
  }

  /** When the data of some entry is gone, validation fails. */
  lemma ValidationNeedsData(st: ImageState, hash: Hash)
    requires Bounded(st) && ValidateToc(st, hash) == Ok
    ensures DataPresent(st)
  {
    forall k | 0 <= k < |Toc(st)| ensures Decode(st, Toc(st)[k], k).Success? {
      assert EntryCodes(st, hash)[k] == ValidateEntry(st, hash, k) == Ok;
    }
  }
}
