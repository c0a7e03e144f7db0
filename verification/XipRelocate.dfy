/** Deleting a section moves others, but lookups cannot tell: names, types, section-relative positions
    and bytes stay, and only items of the deleted section are gone. */
module XipRelocate {
  import opened Bytes
  import opened CStrings
  import opened XipTypes
  import opened XipLayout
  import opened XipRepack
  import opened XipDeleteLaws
  import opened XipToc
  import opened XipSearch
  import opened XipFind

  /** An image whose full TOC can be searched: a TOC flagged as sorted is strictly increasing. */
  ghost predicate Searchable(st: ImageState) {
    && Layout(st) && QuickCheck(st, true) == Ok && st.secs[TOC].size != 0 && NamesOk(st)
    && (st.sorted ==> StrictlyIncreasing(Names(st)))
  }

  /** A validated image is searchable. */
  lemma ValidatedIsSearchable(st: ImageState, hash: Hash)
    requires Layout(st) && QuickCheck(st, true) == Ok && st.secs[TOC].size != 0 && NamesOk(st)
    requires ValidateToc(st, hash) == Ok
    ensures Searchable(st) && DataPresent(st)
  {
    ValidationNeedsData(st, hash);
    ValidationIffSorted(st, hash);
  }

  // ---- tables and names move with their sections

  lemma RepackedSame(st: ImageState, id: nat, r: ImageState, i: nat)
    requires Repacked(st, id, r) && i < SECTIONS && i != id
    ensures SameSection(st, r, i)
  {
    assert Kept(st, id, r, i);
    assert InImage(st.secs[i], st.size) && InImage(r.secs[i], r.size);
  }

  lemma TocKept(st: ImageState, r: ImageState)
    requires Bounded(st) && Bounded(r) && SameSection(st, r, TOC)
    ensures Toc(r) == Toc(st)
  {
    assert InImage(st.secs[TOC], st.size) && InImage(r.secs[TOC], r.size);
    TocViewMoves(st.mem, st.secs[TOC].offset, r.mem, r.secs[TOC].offset, st.secs[TOC].size / TOC_ENTRY,
      st.secs[TOC].size);
  }

  lemma FixedTocKept(st: ImageState, r: ImageState)
    requires Bounded(st) && Bounded(r) && SameSection(st, r, FIXED_TOC)
    ensures FixedToc(r) == FixedToc(st)
  {
    assert InImage(st.secs[FIXED_TOC], st.size) && InImage(r.secs[FIXED_TOC], r.size);
    HashedViewMoves(st.mem, st.secs[FIXED_TOC].offset, r.mem, r.secs[FIXED_TOC].offset,
      st.secs[FIXED_TOC].size / HASHED_ENTRY, st.secs[FIXED_TOC].size);
  }

  lemma NameKept(st: ImageState, r: ImageState, e: TocEntry)
    requires Bounded(st) && Bounded(r) && SameSection(st, r, STRINGS) && StringsEnd(st) && e.id < st.secs[STRINGS].size
    ensures Name(r, e) == Name(st, e)
  {
    var s, s' := st.secs[STRINGS], r.secs[STRINGS];
    CStringMoves(st.mem, s.offset, SectionEnd(s), r.mem, s'.offset, e.id);
  }

  lemma StringsEndKept(st: ImageState, r: ImageState)
    requires Bounded(st) && Bounded(r) && SameSection(st, r, STRINGS) && StringsEnd(st)
    ensures StringsEnd(r)
  {
    var s, s' := st.secs[STRINGS], r.secs[STRINGS];
    SliceIndex(st.mem, s.offset, SectionEnd(s), s.size - 1);
    SliceIndex(r.mem, s'.offset, SectionEnd(s'), s'.size - 1);
  }

  lemma NamesKept(st: ImageState, r: ImageState)
    requires Bounded(st) && Bounded(r) && SameSection(st, r, TOC) && SameSection(st, r, STRINGS) && NamesOk(st)
    ensures Names(r) == Names(st) && NamesOk(r)
  {
    TocKept(st, r);
    StringsEndKept(st, r);
    forall k | 0 <= k < |Toc(st)| ensures Name(r, Toc(st)[k]) == Name(st, Toc(st)[k]) {
      NameKept(st, r, Toc(st)[k]);
    }
  }

  // ---- lookups

  /** Everything about the item but its absolute position agrees, and the position within the section does too. */
  ghost predicate MovedItem(st: ImageState, item: Item, r: ImageState, item': Item, section: nat)
    requires section < |st.secs| && section < |r.secs|
  {
    && item'.(address := item.address, imageData := item.imageData) == item
    && item'.imageData - r.secs[section].offset == item.imageData - st.secs[section].offset
    && item.address == st.link + item.imageData && item'.address == r.link + item'.imageData && r.link == st.link
  }

  /** The same item in a relocated section. */
  ghost predicate SameItem(st: ImageState, item: Item, r: ImageState, item': Item, section: nat)
    requires section < |st.secs| && section < |r.secs|
  {
    MovedItem(st, item, r, item', section) && SameSection(st, r, section)
  }

  /** What a lookup gives after section id has been deleted, from what it gave before. */
  ghost predicate LookupAfterDelete(st: ImageState, before: Result<Item>, id: nat, r: ImageState, after: Result<Item>)
    requires Layout(st) && Layout(r)
  {
    match before
    case Failure(rc) => after == Failure(rc)
    case Success(item) =>
      && item.toc.Some? && item.toc.value < |Toc(st)|
      && var section := Toc(st)[item.toc.value].section as int;
         section < SECTIONS &&
         if section == id then after == Failure(DataNotPresent)
         else after.Success? && SameItem(st, item, r, after.value, section)
  }

  lemma DecodeAfterDelete(st: ImageState, id: nat, r: ImageState, k: nat)
    requires Repacked(st, id, r) && id != STRINGS && id != TOC && NamesOk(st) && k < |Toc(st)|
    ensures LookupAfterDelete(st, Decode(st, Toc(st)[k], k), id, r, Decode(r, Toc(st)[k], k))
  {
    var e := Toc(st)[k];
    RepackedSame(st, id, r, STRINGS);
    NameKept(st, r, e);
    if e.section as int < SECTIONS {
      assert Kept(st, id, r, e.section as int);
    }
  }

  /** The search ends at the same entry, although moving .toc clears the sorted flag and so replaces the
      binary search by the linear one. */
  lemma SearchKept(st: ImageState, r: ImageState, key: seq<byte>)
    requires Searchable(st) && Bounded(r) && SameSection(st, r, TOC) && SameSection(st, r, STRINGS)
    requires r.sorted ==> st.sorted
    ensures SearchIndex(r, key) == SearchIndex(st, key)
  {
    NamesKept(st, r);
    if st.sorted {
      SearchesAgree(Names(st), key);
    }
  }

  /** Relocation is invisible to lookups. */
  lemma RelocationInvisible(st: ImageState, hasBuffer: bool, bufferSize: nat, id: nat, key: seq<byte>, hash: Hash)
    requires Searchable(st) && id < SECTIONS && id !in {HEADER, TOC, STRINGS} && st.secs[id].size != 0
    requires DeleteOutcome(st, hasBuffer, bufferSize, id).rc == Ok
    ensures Searchable(DeleteOutcome(st, hasBuffer, bufferSize, id).image)
    ensures var r := DeleteOutcome(st, hasBuffer, bufferSize, id).image;
      LookupAfterDelete(st, Find(st, key, hash), id, r, Find(r, key, hash))
  {
    var r := DeleteOutcome(st, hasBuffer, bufferSize, id).image;
    DeleteRepacks(st, hasBuffer, bufferSize, id);
    DeleteSorted(st, hasBuffer, bufferSize, id);
    RepackedSame(st, id, r, TOC);
    RepackedSame(st, id, r, STRINGS);
    NamesKept(st, r);
    TocKept(st, r);
    SearchKept(st, r, key);
    var k := SearchIndex(st, key);
    if k != -1 {
      DecodeAfterDelete(st, id, r, k);
    }
  }

  /** After a delete every name whose item lay in the deleted section is still indexed, and p9_xip_find without an
      item gives DataNotPresent for it. */
  lemma DeletedStillIndexed(st: ImageState, hasBuffer: bool, bufferSize: nat, id: nat, key: seq<byte>, hash: Hash)
    requires Searchable(st) && id < SECTIONS && id !in {HEADER, TOC, STRINGS} && st.secs[id].size != 0
    requires DeleteOutcome(st, hasBuffer, bufferSize, id).rc == Ok
    requires SearchIndex(st, key) != -1 && Toc(st)[SearchIndex(st, key)].section as int == id
    ensures var r := DeleteOutcome(st, hasBuffer, bufferSize, id).image;
      Searchable(r) && IsIndexed(r, key, hash) && LookupRc(r, key, hash) == DataNotPresent
  {
    var r := DeleteOutcome(st, hasBuffer, bufferSize, id).image;
    RelocationInvisible(st, hasBuffer, bufferSize, id, key, hash);
    DeleteRepacks(st, hasBuffer, bufferSize, id);
    RepackedSame(st, id, r, TOC);
    assert Find(st, key, hash).Success?;
    assert Find(r, key, hash) == Failure(DataNotPresent);
  }
}
