/** p9_xip_find, its searches, and the validation of an image, on the image in memory. */
module XipFindImpl {
  import opened Bytes
  import opened CStrings
  import opened Memory
  import opened XipTypes
  import opened XipLayout
  import opened XipAppendImpl
  import opened XipToc
  import opened XipSearch
  import opened XipFind

  /** strcmp of a key with the string in memory at position `at`. */
  method StrCmpKey(key: seq<byte>, mem: array<byte>, at: nat) returns (c: int)
    ensures c == StrCmp(key, CString(mem[..], at))
  {
    var i := 0;
    while i < |key| && at + i < mem.Length && mem[at + i] != 0 && mem[at + i] == key[i]
      invariant 0 <= i <= |key|
      invariant StrCmp(key, CString(mem[..], at)) == StrCmp(key[i..], CString(mem[..], at + i))
    {
      assert key[i..][1..] == key[i + 1..];
      i := i + 1;
    }
    if at + i >= mem.Length || mem[at + i] == 0 {
      c := if i == |key| then 0 else 1;
    } else if i == |key| {
      c := -1;
    } else {
      c := if key[i] < mem[at + i] then -1 else 1;
    }
  }

  /** Where the name of entry k is read from. */
  lemma NameOfEntry(st: ImageState, k: nat)
    requires Bounded(st) && k < |Toc(st)|
    ensures st.secs[TOC].offset + TOC_ENTRY * k + TOC_ENTRY <= |st.mem|
    ensures Names(st)[k]
      == CString(st.mem, st.secs[STRINGS].offset + U32At(st.mem, st.secs[TOC].offset + TOC_ENTRY * k))
    ensures Toc(st)[k] == TocAt(st.mem, st.secs[TOC].offset + TOC_ENTRY * k)
  {
    assert InImage(st.secs[TOC], st.size);
  }

  /** Compare a key with the name of entry k. */
  method CompareName(img: XipImage, key: seq<byte>, k: nat) returns (c: int)
    requires Bounded(img.State()) && k < |Toc(img.State())|
    ensures c == StrCmp(key, Names(img.State())[k])
  {
    NameOfEntry(img.State(), k);
    var id := ReadU32(img.mem, img.sections[TOC].offset + TOC_ENTRY * k);
    c := StrCmpKey(key, img.mem, img.sections[STRINGS].offset + id);
  }

  method LinearSearch(img: XipImage, key: seq<byte>) returns (rc: Rc, entry: int)
    requires Bounded(img.State())
    ensures entry == LinearIndex(Names(img.State()), key, 0)
    ensures rc == if entry == -1 then ItemNotFound else Ok
  {
    ghost var names := Names(img.State());
    var entries := img.sections[TOC].size / TOC_ENTRY;
    var k := 0;
    while k < entries
      invariant 0 <= k <= entries == |names| && LinearIndex(names, key, 0) == LinearIndex(names, key, k)
    {
      var sort := CompareName(img, key, k);
      if sort == 0 {
        return Ok, k;
      }
      k := k + 1;
    }
    return ItemNotFound, -1;
  }

  /** The search has narrowed down to names[left..right]. */
  ghost predicate Narrowed(names: seq<seq<byte>>, key: seq<byte>, left: int, right: int, goal: int) {
    0 <= left && right < |names| && BinaryIndex(names, key, left, right) == goal
  }

  /** Where it goes on from there. */
  lemma SearchStep(names: seq<seq<byte>>, key: seq<byte>, left: int, right: int, goal: int, next: int, sort: int)
    requires Narrowed(names, key, left, right, goal) && left <= right && next == (left + right) / 2
    requires sort == StrCmp(key, names[next])
    ensures sort == 0 ==> goal == next
    ensures sort < 0 ==> Narrowed(names, key, left, next - 1, goal)
    ensures sort > 0 ==> Narrowed(names, key, next + 1, right, goal)
  {
  }

  /** Compare the key with the middle entry of the range. */
  method CompareMiddle(img: XipImage, key: seq<byte>, left: int, right: int, ghost names: seq<seq<byte>>)
      returns (next: int, sort: int)
    requires Bounded(img.State()) && names == Names(img.State()) && 0 <= left <= right < |names|
    ensures next == (left + right) / 2 && 0 <= next < |names| && sort == StrCmp(key, names[next])
  {
    next := (left + right) / 2;
    sort := CompareName(img, key, next);
  }

  /** The rest of the range, when the middle entry is not the one. */
  method NarrowRange(left: int, right: int, next: int, sort: int,
                     ghost names: seq<seq<byte>>, ghost key: seq<byte>, ghost goal: int)
      returns (found: bool, left': int, right': int)
    requires Narrowed(names, key, left, right, goal) && left <= right && next == (left + right) / 2
    requires sort == StrCmp(key, names[next])
    ensures found ==> left' == goal >= 0
    ensures !found ==> Narrowed(names, key, left', right', goal) && right' - left' < right - left
  {
    SearchStep(names, key, left, right, goal, next, sort);
    if sort == 0 {
      return true, next, right;
    }
    if sort < 0 {
      return false, left, next - 1;
    }
    return false, next + 1, right;
  }

  method BinarySearch(img: XipImage, key: seq<byte>) returns (rc: Rc, entry: int)
    requires Bounded(img.State())
    ensures !img.tocSorted ==> rc == Bug && entry == -1
    ensures img.tocSorted ==> entry == BinaryIndex(Names(img.State()), key, 0, |Names(img.State())| - 1)
    ensures img.tocSorted ==> rc == if entry == -1 then ItemNotFound else Ok
  {
    if !img.tocSorted {
      return Bug, -1;
    }
    var left, right := 0, img.sections[TOC].size / TOC_ENTRY - 1;
    ghost var names := Names(img.State());
    ghost var goal := BinaryIndex(names, key, 0, |names| - 1);
    assert right == |names| - 1;
    while left <= right
      invariant Narrowed(names, key, left, right, goal)
      decreases right - left
    {
      var next, sort := CompareMiddle(img, key, left, right, names);
      var found;
      found, left, right := NarrowRange(left, right, next, sort, names, key, goal);
      if found {
        return Ok, left;
      }
    }
    assert goal == -1;
    return ItemNotFound, -1;
  }

  // ---- decoding and the fallback tables

  /** xipDecodeToc on entry k. */
  method DecodeToc(img: XipImage, k: nat) returns (r: Result<Item>)
    requires Bounded(img.State()) && k < |Toc(img.State())|
    ensures r == Decode(img.State(), Toc(img.State())[k], k)
  {
    if !img.normalized {
      return Failure(NotNormalized);
    }
    NameOfEntry(img.State(), k);
    var e := ReadToc(img.mem, img.sections[TOC].offset + TOC_ENTRY * k);
    if e.section as int >= SECTIONS {
      return Failure(InvalidArgument);
    }
    var section := img.sections[e.section as int];
    if section.size == 0 {
      return Failure(DataNotPresent);
    }
    var name := ReadCString(img.mem, img.sections[STRINGS].offset + e.id);
    var at := section.offset + e.data;
    return Success(Item(Some(k), img.linkAddress + at, at, Some(name), e.typ, e.elements, false));
  }

  /** Where record k is read from. */
  lemma RecordInMemory(st: ImageState, k: nat)
    requires Bounded(st) && k < |FixedToc(st)|
    ensures st.secs[FIXED_TOC].offset + HASHED_ENTRY * k + HASHED_ENTRY <= |st.mem|
    ensures FixedToc(st)[k] == HashedAt(st.mem, st.secs[FIXED_TOC].offset + HASHED_ENTRY * k)
  {
    assert InImage(st.secs[FIXED_TOC], st.size);
  }

  method SearchHash(img: XipImage, h: u32) returns (entry: int)
    requires Bounded(img.State())
    ensures entry == HashIndex(FixedToc(img.State()), h, 0)
  {
    ghost var records := FixedToc(img.State());
    var base, entries := img.sections[FIXED_TOC].offset, img.sections[FIXED_TOC].size / HASHED_ENTRY;
    var k := 0;
    while k < entries
      invariant 0 <= k <= entries == |records| && HashIndex(records, h, 0) == HashIndex(records, h, k)
    {
      RecordInMemory(img.State(), k);
      if ReadU32(img.mem, base + HASHED_ENTRY * k) == h {
        return k;
      }
      k := k + 1;
    }
    return -1;
  }

  /** xipFixedFind. */
  method FixedSearch(img: XipImage, key: seq<byte>, hash: Hash) returns (r: Result<Item>)
    requires Bounded(img.State())
    ensures r == FixedFind(img.State(), key, hash)
  {
    var k := SearchHash(img, hash(key));
    if k == -1 {
      return Failure(ItemNotFound);
    }
    if img.sections[FIXED].size == 0 {
      return Failure(DataNotPresent);
    }
    RecordInMemory(img.State(), k);
    var p := img.sections[FIXED_TOC].offset + HASHED_ENTRY * k;
    var at := img.sections[FIXED].offset + ReadU16(img.mem, p + 4);
    return Success(Item(None, img.linkAddress + at, at, None, img.mem[p + 6], img.mem[p + 7], true));
  }

  /** Index of the header field with this name, or -1. */
  method SearchFields(fields: seq<(string, nat, byte)>, key: seq<byte>) returns (i: int)
    ensures i == HeaderIndex(fields, key, 0)
  {
    i := 0;
    while i < |fields|
      invariant 0 <= i <= |fields| && HeaderIndex(fields, key, 0) == HeaderIndex(fields, key, i)
    {
      if Ascii(fields[i].0) == key {
        return;
      }
      i := i + 1;
    }
    i := -1;
  }

  /** xipHeaderFind. */
  method HeaderSearch(img: XipImage, key: seq<byte>) returns (r: Result<Item>)
    requires |img.sections| == SECTIONS
    ensures r == HeaderFind(img.State(), key)
  {
    var fields := HeaderFields();
    var i := SearchFields(fields, key);
    if i == -1 {
      return Failure(ItemNotFound);
    }
    if img.sections[HEADER].size == 0 {
      return Failure(DataNotPresent);
    }
    var at := img.sections[HEADER].offset + fields[i].1;
    return Success(Item(None, img.linkAddress + at, at, None, fields[i].2, 1, true));
  }

  /** p9_xip_find: binary search on a sorted TOC, linear search on an unsorted one, and the tables of .fixed
      and of the header when there is no TOC. */
  method FindItem(img: XipImage, key: seq<byte>, hash: Hash) returns (r: Result<Item>)
    requires Bounded(img.State())
    ensures r == Find(img.State(), key, hash)
  {
    var rc := CheckHeader(img, true);
    if rc != Ok {
      return Failure(rc);
    }
    if img.sections[TOC].size == 0 {
      r := FixedSearch(img, key, hash);
      if r.Failure? {
        r := HeaderSearch(img, key);
      }
      return;
    }
    var entry;
    rc, entry := SearchToc(img, key);
    if rc != Ok {
      return Failure(rc);
    }
    r := DecodeToc(img, entry);
  }

  method SearchToc(img: XipImage, key: seq<byte>) returns (rc: Rc, entry: int)
    requires Bounded(img.State())
    ensures entry == SearchIndex(img.State(), key) && rc == if entry == -1 then ItemNotFound else Ok
  {
    if img.tocSorted {
      rc, entry := BinarySearch(img, key);
    } else {
      rc, entry := LinearSearch(img, key);
    }
  }

  /** p9_xip_find called without an item to fill in. */
  method LookupOnly(img: XipImage, key: seq<byte>, hash: Hash) returns (rc: Rc)
    requires Bounded(img.State())
    ensures rc == LookupRc(img.State(), key, hash)
  {
    rc := CheckHeader(img, true);
    if rc != Ok {
      return;
    }
    var entry;
    if img.sections[TOC].size == 0 {
      entry := SearchHash(img, hash(key));
      if entry == -1 {
        entry := SearchFields(HeaderFields(), key);
      }
      return if entry == -1 then ItemNotFound else Ok;
    }
    rc, entry := SearchToc(img, key);
    if rc == Ok {
      var item := DecodeToc(img, entry);
      rc := if item.Failure? then item.rc else Ok;
    }
  }

  // ---- validation

  /** xipValidateTocEntry: an item must be found by its name, at its own entry. */
  method ValidateItem(img: XipImage, item: Item, hash: Hash) returns (rc: Rc)
    requires Bounded(img.State()) && item.id.Some?
    ensures rc == var found := Find(img.State(), item.id.value, hash);
      if found.Failure? then found.rc else if found.value.toc != item.toc then TocError else Ok
  {
    var found := FindItem(img, item.id.value, hash);
    if found.Failure? {
      return found.rc;
    }
    return if found.value.toc != item.toc then TocError else Ok;
  }

  /** Decode entry k and validate the item. */
  method MapTurn(img: XipImage, k: nat, hash: Hash) returns (rc: Rc)
    requires Bounded(img.State()) && k < |Toc(img.State())|
    ensures rc == ValidateEntry(img.State(), hash, k)
  {
    var item := DecodeToc(img, k);
    if item.Failure? {
      return item.rc;
    }
    rc := ValidateItem(img, item.value, hash);
  }

  /** p9_xip_map_toc with xipValidateTocEntry: decode and validate the entries until one fails. */
  method MapToc(img: XipImage, hash: Hash) returns (rc: Rc)
    requires Bounded(img.State())
    ensures rc
      == if QuickCheck(img.State(), false) != Ok then QuickCheck(img.State(), false) else ValidateToc(img.State(), hash)
  {
    rc := CheckHeader(img, false);
    if rc != Ok {
      return;
    }
    ghost var codes := EntryCodes(img.State(), hash);
    var entries := img.sections[TOC].size / TOC_ENTRY;
    var k := 0;
    while k < entries
      invariant 0 <= k <= entries == |codes| && FirstError(codes, 0) == FirstError(codes, k)
    {
      rc := MapTurn(img, k, hash);
      if rc != Ok {
        return;
      }
      k := k + 1;
    }
    rc := Ok;
  }
}
