/** p9_xip_normalize on the image in place. */
module XipNormalizeImpl {
  import opened Bytes
  import opened CStrings
  import opened Memory
  import opened XipTypes
  import opened XipLayout
  import opened XipAppendImpl
  import opened XipToc
  import opened XipFind
  import opened XipAddress
  import opened XipAddressImpl
  import opened XipSortSpec
  import opened XipSortStack
  import opened XipSort
  import opened XipNormalize
  import opened XipNormalizeLaws
  import opened XipNormalizeSteps

  /** The entry with its addresses replaced by offsets. */
  method TranslateEntry(img: XipImage, e: TocEntry) returns (r: Result<TocEntry>)
    requires |img.sections| == SECTIONS
    ensures r == NormEntry(img.State(), e)
  {
    var region := img.linkAddress / U32_LIMIT % 0x1_0000 * U32_LIMIT;
    var id := FindPlace(img, region + e.id);
    if id.Failure? {
      return Failure(id.rc);
    }
    if id.value.section != STRINGS {
      return Failure(ImageError);
    }
    var data := FindPlace(img, region + e.data);
    if data.Failure? {
      return Failure(data.rc);
    }
    return Success(TocEntry(id.value.offset, data.value.offset, e.typ, data.value.section as byte, e.elements, 0));
  }

  lemma NameUnchanged(st: ImageState, m: seq<byte>, n: TocEntry)
    requires Layout(st) && StringsEnd(st) && OthersKept(st, m) && n.id < st.secs[STRINGS].size
    ensures CString(m, st.secs[STRINGS].offset + n.id) == Name(st, n)
  {
    var s := st.secs[STRINGS];
    assert InImage(s, st.size);
    CStringMoves(st.mem, s.offset, SectionEnd(s), m, s.offset, n.id);
  }

  /** The image st with memory m. */
  ghost predicate During(st: ImageState, img: XipImage, m: seq<byte>)
    reads img, img.mem
  {
    img.State() == st.(mem := m)
  }

  lemma SamePlace(st: ImageState, m: seq<byte>, e: TocEntry)
    requires |st.secs| == SECTIONS
    ensures NormEntry(st.(mem := m), e) == NormEntry(st, e)
  {
    SamePlaceAt(st, m, FullAddress(st, e.id));
    SamePlaceAt(st, m, FullAddress(st, e.data));
    assert FullAddress(st.(mem := m), e.id) == FullAddress(st, e.id);
    assert FullAddress(st.(mem := m), e.data) == FullAddress(st, e.data);
  }

  lemma SamePlaceAt(st: ImageState, m: seq<byte>, address: nat)
    ensures Image2Section(st.(mem := m), address) == Image2Section(st, address)
  {
  }

  lemma SameTranslation(st: ImageState, m: seq<byte>, e: TocEntry, left: nat)
    requires |st.secs| == SECTIONS
    ensures NormEntry(st.(mem := m), e) == NormEntry(st, e) && NormRc(st.(mem := m), e, left) == NormRc(st, e, left)
  {
    SamePlace(st, m, e);
  }

  /** Fill record c of .fixed_toc for a normalized entry. */
  method FillRecord(img: XipImage, c: nat, n: TocEntry, hash: Hash, ghost st: ImageState)
    requires During(st, img, img.mem[..]) && Layout(st) && StringsEnd(st) && InTables(st, img.mem[..])
      && OthersKept(st, img.mem[..])
    requires c < RecordCount(st) && InFixed(n) && n.data < 0x1_0000 && n.id < st.secs[STRINGS].size
    modifies img.mem
    ensures img.mem[..] == RecordStep(st, old(img.mem[..]), c, n, hash)
  {
    NameUnchanged(st, img.mem[..], n);
    var name := ReadCString(img.mem, img.sections[STRINGS].offset + n.id);
    CopyInto(img.mem, img.sections[FIXED_TOC].offset + HASHED_ENTRY * c,
      HashedBytes(HashedToc(hash(name), n.data, n.typ, n.elements)));
  }

  /** Store a normalized entry, after its record when the data lies in .fixed. */
  method StoreEntry(img: XipImage, k: nat, c: nat, n: TocEntry, hash: Hash, ghost st: ImageState)
    requires During(st, img, img.mem[..]) && Layout(st) && StringsEnd(st) && InTables(st, img.mem[..])
      && OthersKept(st, img.mem[..])
    requires CanTurn(st, img.mem[..], k, c, n) && n.id < st.secs[STRINGS].size
    requires InFixed(n) ==> n.data < 0x1_0000
    modifies img.mem
    ensures img.mem[..] == TurnMemory(st, old(img.mem[..]), k, c, n, hash)
  {
    RecordStepState(st, img.mem[..], c, n, hash);
    if n.section as int == FIXED {
      FillRecord(img, c, n, hash, st);
    }
    WriteToc(img.mem, img.sections[TOC].offset + TOC_ENTRY * k, n);
  }

  /** The checks for one entry, `left` records being free. */
  method CheckEntry(img: XipImage, e: TocEntry, left: nat, ghost st: ImageState) returns (rc: Rc, n: TocEntry)
    requires During(st, img, img.mem[..]) && |st.secs| == SECTIONS
    ensures rc == NormRc(st, e, left)
    ensures rc == Ok ==> NormEntry(st, e) == Success(n)
  {
    SameTranslation(st, img.mem[..], e, left);
    var r := TranslateEntry(img, e);
    if r.Failure? {
      return r.rc, e;
    }
    n := r.value;
    if n.section as int == FIXED {
      if left == 0 {
        return TocError, e;
      }
      if n.data != n.data % 0x1_0000 {
        return ImageError, e;
      }
    }
    rc := Ok;
  }

  /** Normalize entry k of .toc; if its data lies in .fixed, fill record c of .fixed_toc, of which `left` are free. */
  method NormalizeToc(img: XipImage, k: nat, c: nat, left: nat, hash: Hash, ghost st: ImageState)
      returns (rc: Rc, used: nat)
    requires During(st, img, img.mem[..]) && Layout(st) && StringsEnd(st) && InTables(st, img.mem[..])
      && OthersKept(st, img.mem[..])
    requires k < TocCount(st) && c + left == RecordCount(st) && TocIn(st, img.mem[..])[k] == Toc(st)[k]
    modifies img.mem
    ensures rc == NormRc(st, Toc(st)[k], left)
    ensures rc == Ok ==> InFixed(Normed(st, Toc(st)[k])) ==> left > 0
    ensures rc == Ok ==> img.mem[..] == TurnMemory(st, old(img.mem[..]), k, c, Normed(st, Toc(st)[k]), hash)
    ensures rc == Ok ==> used == if InFixed(Normed(st, Toc(st)[k])) then 1 else 0
    ensures rc != Ok ==> img.mem[..] == old(img.mem[..])
  {
    var e := ReadToc(img.mem, img.sections[TOC].offset + TOC_ENTRY * k);
    assert e == Toc(st)[k];
    var n;
    rc, n := CheckEntry(img, e, left, st);
    used := 0;
    if rc == Ok {
      NormedPlaces(st, e);
      StoreEntry(img, k, c, n, hash, st);
      used := if n.section as int == FIXED then 1 else 0;
    }
  }

  /** Compare the hashes of all pairs of records. */
  method HashCollides(img: XipImage, n: nat) returns (rc: Rc)
    requires |img.sections| == SECTIONS && img.sections[FIXED_TOC].offset + HASHED_ENTRY * n <= img.mem.Length
    ensures rc == if Collision(HashedView(img.mem[..], img.sections[FIXED_TOC].offset, n)) then HashCollision else Ok
  {
    var base := img.sections[FIXED_TOC].offset;
    ghost var records := HashedView(img.mem[..], base, n);
    rc := Ok;
    var i := 0;
    while i < n && rc == Ok
      invariant 0 <= i <= n
      invariant rc == Ok ==> NoCollisionBefore(records, i, i + 1)
      invariant rc != Ok ==> rc == HashCollision && Collision(records)
      decreases n - i, rc == Ok
    {
      var j := i + 1;
      while j < n && rc == Ok
        invariant i + 1 <= j <= n
        invariant rc == Ok ==> NoCollisionBefore(records, i, j)
        invariant rc != Ok ==> rc == HashCollision && Collision(records)
        decreases n - j, rc == Ok
      {
        var a, b := ReadU32(img.mem, base + HASHED_ENTRY * i), ReadU32(img.mem, base + HASHED_ENTRY * j);
        assert a == records[i].hash && b == records[j].hash;
        if a == b {
          rc := HashCollision;
        }
        j := j + 1;
      }
      i := i + 1;
    }
  }

  /** No two records before i share a hash, nor record i with one from i + 1 up to j. */
  ghost predicate NoCollisionBefore(records: seq<HashedToc>, i: nat, j: nat) {
    forall a, b :: 0 <= a < b < |records| && (a < i || (a == i && b < j)) ==> records[a].hash != records[b].hash
  }

  // ---- sorting

  /** The names of the table as it stands in memory m. */
  ghost function NamesIn(st: ImageState, m: seq<byte>): (names: seq<seq<byte>>)
    requires InTables(st, m)
    ensures |names| == TocCount(st)
    ensures forall k :: 0 <= k < |names| ==> names[k] == CString(m, st.secs[STRINGS].offset + TocIn(st, m)[k].id)
  {
    seq(TocCount(st), k requires 0 <= k < TocCount(st) => CString(m, st.secs[STRINGS].offset + TocIn(st, m)[k].id))
  }

  /** The keys that the sort finds in the memory m. */
  ghost function KeysIn(st: ImageState, m: seq<byte>): (ks: Keys)
    requires InTables(st, m)
    ensures |ks| == TocCount(st)
  {
    TableKeys(m, m, st.secs[TOC].offset, TocCount(st), st.secs[STRINGS].offset)
  }

  /** The table can be sorted: it has names in .strings, or nothing but memory at its place, and the stack has the
      slots that its keys take. */
  ghost predicate Sortable(st: ImageState, m: seq<byte>, slots: nat) {
    && Layout(st) && InTables(st, m) && OthersKept(st, m) && Slots(KeysIn(st, m)) <= slots
    && (if TocCount(st) == 0 then st.secs[TOC].offset + TOC_ENTRY <= |m|
        else StringsEnd(st) && NamesInside(TocIn(st, m), st.secs[STRINGS].size))
  }

  /** What sorting has done to the memory m. */
  ghost predicate SortedFrom(st: ImageState, m: seq<byte>, m': seq<byte>) {
    && InTables(st, m) && InTables(st, m') && OthersKept(st, m') && RecordsIn(st, m') == RecordsIn(st, m)
    && SameEntries(TocIn(st, m'), TocIn(st, m))
    && (st.sorted ==> m' == m) && (!st.sorted ==> Sorted(NamesIn(st, m')))
  }

  /** Sort the TOC by name unless it is flagged as sorted. */
  method SortToc(img: XipImage, slots: nat, ghost st: ImageState) returns (rc: Rc)
    requires img.State() == st.(mem := img.mem[..], normalized := true) && QuickCheck(img.State(), true) == Ok
    requires Layout(st) && InTables(st, img.mem[..]) && OthersKept(st, img.mem[..])
    requires !img.tocSorted ==> Sortable(st, img.mem[..], slots)
    modifies img`tocSorted, img.mem
    ensures rc == Ok && img.State() == st.(mem := img.mem[..], normalized := true, sorted := true)
    ensures SortedFrom(st, old(img.mem[..]), img.mem[..])
  {
    rc := CheckHeader(img, true);
    if img.tocSorted {
      return;
    }
    SortTable(img, slots, st);
    img.tocSorted := true;
  }

  method SortTable(img: XipImage, slots: nat, ghost st: ImageState)
    requires img.sections == st.secs && !st.sorted && Sortable(st, img.mem[..], slots)
    modifies img.mem
    ensures SortedFrom(st, old(img.mem[..]), img.mem[..])
  {
    ghost var m := img.mem[..];
    SortReady(st, m, slots);
    var toc, strings := img.sections[TOC], img.sections[STRINGS];
    QuickSort(img.mem, toc.offset, toc.size / TOC_ENTRY, strings.offset, m, SectionEnd(strings), slots);
    if TocCount(st) > 0 {
      SortDone(st, m, img.mem[..]);
    }
  }

  lemma SortDone(st: ImageState, m: seq<byte>, m': seq<byte>)
    requires InTables(st, m) && OthersKept(st, m) && !st.sorted
    requires Rearranged(m, m, m', st.secs[TOC].offset, TocCount(st), st.secs[STRINGS].offset,
      SectionEnd(st.secs[STRINGS]))
    requires Sorted(TableKeys(m, m', st.secs[TOC].offset, TocCount(st), st.secs[STRINGS].offset))
    ensures SortedFrom(st, m, m')
  {
    SortKeepsOthers(st, m, m');
    NamesAfterSort(st, m, m');
  }

  lemma SortReady(st: ImageState, m: seq<byte>, slots: nat)
    requires Sortable(st, m, slots)
    ensures TocCount(st) > 0 ==>
      Ready(m, m, st.secs[TOC].offset, TocCount(st), st.secs[STRINGS].offset, SectionEnd(st.secs[STRINGS]))
    ensures TocCount(st) < U32_LIMIT
  {
    var s, t := st.secs[STRINGS], st.secs[TOC];
    assert InImage(s, st.size) && InImage(t, st.size) && Disjoint(s, t);
    if TocCount(st) > 0 {
      SliceIndex(st.mem, s.offset, SectionEnd(s), s.size - 1);
      SliceIndex(m, s.offset, SectionEnd(s), s.size - 1);
    }
  }

  lemma NamesAfterSort(st: ImageState, m: seq<byte>, m': seq<byte>)
    requires InTables(st, m) && InTables(st, m')
    requires Ready(m, m', st.secs[TOC].offset, TocCount(st), st.secs[STRINGS].offset, SectionEnd(st.secs[STRINGS]))
    requires Sorted(TableKeys(m, m', st.secs[TOC].offset, TocCount(st), st.secs[STRINGS].offset))
    ensures Sorted(NamesIn(st, m'))
  {
    var lo, hi := st.secs[STRINGS].offset, SectionEnd(st.secs[STRINGS]);
    var ks := TableKeys(m, m', st.secs[TOC].offset, TocCount(st), lo);
    forall k | 0 <= k < TocCount(st) ensures NamesIn(st, m')[k] == ks[k] {
      CStringMoves(m, lo, hi, m', lo, TocIn(st, m')[k].id);
    }
  }

  /** Sorting writes to .toc only. */
  lemma SortKeepsOthers(st: ImageState, m: seq<byte>, m': seq<byte>)
    requires InTables(st, m) && OthersKept(st, m)
    requires TableOnly(m, m', st.secs[TOC].offset, TOC_ENTRY * TocCount(st))
    ensures InTables(st, m') && OthersKept(st, m') && RecordsIn(st, m') == RecordsIn(st, m)
  {
    assert InImage(st.secs[TOC], st.size) && InImage(st.secs[FIXED_TOC], st.size);
    forall j | 0 <= j < SECTIONS && j != TOC && st.secs[j].size != 0 && st.secs[TOC].size != 0
      ensures SectionEnd(st.secs[j]) <= |m|
      ensures m'[st.secs[j].offset..SectionEnd(st.secs[j])] == m[st.secs[j].offset..SectionEnd(st.secs[j])]
    {
      assert InImage(st.secs[j], st.size) && Disjoint(st.secs[j], st.secs[TOC]);
      OutsideKept(m, m', st.secs[TOC].offset, TOC_ENTRY * TocCount(st), st.secs[j].offset, SectionEnd(st.secs[j]));
    }
    if st.secs[TOC].size == 0 {
      EmptyTableKept(st, m, m');
    }
    forall j | 0 <= j < SECTIONS
      ensures InImage(st.secs[j], st.size) && (j != TOC && j != FIXED_TOC ==>
        m'[st.secs[j].offset..SectionEnd(st.secs[j])] == st.mem[st.secs[j].offset..SectionEnd(st.secs[j])])
    {
      assert InImage(st.secs[j], st.size);
    }
    HashedViewMoves(m, st.secs[FIXED_TOC].offset, m', st.secs[FIXED_TOC].offset, RecordCount(st),
      st.secs[FIXED_TOC].size);
  }

  lemma EmptyTableKept(st: ImageState, m: seq<byte>, m': seq<byte>)
    requires InTables(st, m) && TableOnly(m, m', st.secs[TOC].offset, TOC_ENTRY * TocCount(st))
      && st.secs[TOC].size == 0
    ensures m' == m
  {
    var base := st.secs[TOC].offset;
    assert m == m[..base] + m[base..];
    assert m' == m'[..base] + m'[base..];
  }

  /** Clear the offset of every empty section. */
  method ClearOffsets(img: XipImage)
    modifies img`sections
    ensures img.State() == old(img.State()).(secs := ClearedAll(old(img.sections)))
  {
    ghost var st, secs := img.State(), img.sections;
    for i := 0 to |img.sections|
      invariant |img.sections| == |secs|
      invariant forall j :: 0 <= j < |secs| ==> img.sections[j] == if j < i then Cleared(secs[j]) else secs[j]
    {
      if img.sections[i].size == 0 {
        img.sections := img.sections[i := img.sections[i].(offset := 0)];
      }
    }
    assert img.sections == ClearedAll(secs);
    assert img.State() == st.(secs := img.sections);
  }

  /** The loop has normalized k entries and written c records. */
  ghost predicate AtEntry(st: ImageState, m: seq<byte>, k: nat, c: nat, hash: Hash) {
    && Layout(st) && NamesEnd(st) && k <= TocCount(st) && Reached(st, k)
    && m == NormMemory(st, k, hash) && c == FixedBefore(st, Toc(st), k)
  }

  /** The image st at entry k. */
  ghost predicate Normalizing(st: ImageState, img: XipImage, k: nat, c: nat, hash: Hash)
    reads img, img.mem
  {
    AtEntry(st, img.mem[..], k, c, hash) && During(st, img, img.mem[..])
  }

  /** What a turn leads to: the state at the next entry, or the error of the whole loop. */
  lemma TurnDone(st: ImageState, m: seq<byte>, k: nat, c: nat, m': seq<byte>, rc: Rc, hash: Hash)
    requires AtEntry(st, m, k, c, hash) && k < TocCount(st) && c <= RecordCount(st)
    requires rc == NormRc(st, Toc(st)[k], RecordCount(st) - c)
    requires rc == Ok ==> m' == TurnMemory(st, m, k, c, Normed(st, Toc(st)[k]), hash)
    ensures rc == Ok ==> AtEntry(st, m', k + 1, c + (if InFixed(Normed(st, Toc(st)[k])) then 1 else 0), hash)
    ensures rc != Ok ==> rc == LoopRc(st) && k == Stop(st)
  {
    if rc == Ok {
      ReachedNext(st, k);
    } else {
      LoopStops(st, k);
    }
  }

  /** One turn of the loop. */
  method NormalizeTurn(img: XipImage, k: nat, c: nat, records: nat, hash: Hash, ghost st: ImageState)
      returns (rc: Rc, c': nat)
    requires Normalizing(st, img, k, c, hash)
    requires k < TocCount(st) && records == RecordCount(st)
    modifies img.mem
    ensures rc == Ok ==> Normalizing(st, img, k + 1, c', hash)
    ensures rc != Ok ==> rc == LoopRc(st) && k == Stop(st) && img.mem[..] == NormMemory(st, k, hash)
  {
    ghost var m := img.mem[..];
    NormLoop(st, k, hash);
    var used;
    rc, used := NormalizeToc(img, k, c, records - c, hash, st);
    TurnDone(st, m, k, c, img.mem[..], rc, hash);
    c' := c + used;
  }

  lemma EntriesStart(st: ImageState, k: nat, c: nat, hash: Hash)
    requires Layout(st) && NamesEnd(st) && k == c == 0
    ensures AtEntry(st, st.mem, k, c, hash)
  {
  }

  lemma EntriesDone(st: ImageState, m: seq<byte>, c: nat, hash: Hash)
    requires Layout(st) && AtEntry(st, m, TocCount(st), c, hash)
    ensures LoopRc(st) == Ok && m == NormMemory(st, Stop(st), hash)
  {
    LoopRuns(st, TocCount(st));
  }

  /** Normalize the entries of .toc one after the other, stopping at the first error. */
  method NormalizeEntries(img: XipImage, hash: Hash, ghost st: ImageState) returns (rc: Rc, c: nat)
    requires Layout(st) && NamesEnd(st) && During(st, img, st.mem)
    modifies img.mem
    ensures rc == LoopRc(st) && img.mem[..] == NormMemory(st, Stop(st), hash)
    ensures rc == Ok ==> AtEntry(st, img.mem[..], TocCount(st), c, hash)
  {
    var entries, records := img.sections[TOC].size / TOC_ENTRY, img.sections[FIXED_TOC].size / HASHED_ENTRY;
    var k: nat := 0;
    c := 0;
    rc := Ok;
    EntriesStart(st, k, c, hash);
    while k < entries
      invariant k <= entries && entries == TocCount(st) && records == RecordCount(st)
      invariant Normalizing(st, img, k, c, hash)
    {
      rc, c := NormalizeTurn(img, k, c, records, hash, st);
      if rc != Ok {
        return;
      }
      k := k + 1;
    }
    EntriesDone(st, img.mem[..], c, hash);
    rc := Ok;
  }

  /** All entries are done. */
  lemma NormDone(st: ImageState, hash: Hash)
    requires Layout(st) && Reached(st, TocCount(st))
    ensures var m := NormMemory(st, TocCount(st), hash);
      && InTables(st, m) && TocIn(st, m) == NormedAll(st, Toc(st))
      && (FixedBefore(st, Toc(st), TocCount(st)) == RecordCount(st) ==> RecordsIn(st, m) == Records(st, Toc(st), hash))
  {
    NormReached(st, TocCount(st), hash);
    var m := NormMemory(st, TocCount(st), hash);
    assert RecordsIn(st, m)[..RecordCount(st)] == RecordsIn(st, m);
  }

  /** Normalize every TOC entry of a linked image, check that .fixed_toc is exactly filled and its hashes
      are distinct, and mark the image as normalized. */
  method NormalizeTables(img: XipImage, hash: Hash) returns (rc: Rc)
    requires Layout(img.State()) && NamesEnd(img.State()) && !img.normalized && QuickCheck(img.State(), false) == Ok
    modifies img`normalized, img.mem
    ensures rc == NormalizeRc(old(img.State()), hash) && img.normalized == (rc == Ok)
    ensures OthersKept(old(img.State()), img.mem[..])
    ensures rc != Ok ==> img.mem[..] == NormMemory(old(img.State()), Stop(old(img.State())), hash)
    ensures rc == Ok ==> TablesReady(old(img.State()), img.mem[..], hash)
  {
    ghost var st := img.State();
    var c;
    rc, c := NormalizeEntries(img, hash, st);
    NormLoop(st, Stop(st), hash);
    if rc == Ok {
      NormDone(st, hash);
      if c != img.sections[FIXED_TOC].size / HASHED_ENTRY {
        rc := TocError;
      } else {
        rc := HashCollides(img, c);
      }
    }
    if rc == Ok {
      img.normalized := true;
    }
  }

  // ---- the whole normalization

  /** The tables are ready to be sorted: normalized just now, or already before. */
  ghost predicate TablesReady(st: ImageState, m: seq<byte>, hash: Hash) {
    && InTables(st, m) && OthersKept(st, m) && TocIn(st, m) == BeforeSort(st)
    && RecordsIn(st, m) == (if st.normalized then FixedToc(st) else Records(st, Toc(st), hash))
    && (st.normalized ==> m == st.mem)
  }

  lemma AlreadyReady(st: ImageState, hash: Hash)
    requires Layout(st) && st.normalized
    ensures TablesReady(st, st.mem, hash)
  {
    NormStart(st, hash);
    assert InImage(st.secs[TOC], st.size) && InImage(st.secs[FIXED_TOC], st.size);
  }

  /** Names stay where the strings are. */
  lemma KeysMove(st: ImageState, m: seq<byte>, t: seq<TocEntry>)
    requires Layout(st) && StringsEnd(st) && OthersKept(st, m) && NamesInside(t, st.secs[STRINGS].size)
    ensures KeysOf(m, st.secs[STRINGS].offset, t) == KeysOf(st.mem, st.secs[STRINGS].offset, t)
  {
    var lo := st.secs[STRINGS].offset;
    forall k | 0 <= k < |t| ensures Key(m, lo, t[k]) == Key(st.mem, lo, t[k]) {
      NameUnchanged(st, m, t[k]);
    }
  }

  lemma SortKeysAre(st: ImageState)
    requires Layout(st)
    ensures SortKeys(st) == KeysOf(st.mem, st.secs[STRINGS].offset, BeforeSort(st))
  {
  }

  /** The keys in memory are the names that the normalized entries have in the original image. */
  lemma KeysToSort(st: ImageState, m: seq<byte>, hash: Hash)
    requires Layout(st) && StringsEnd(st) && TablesReady(st, m, hash)
    requires NamesInside(TocIn(st, m), st.secs[STRINGS].size)
    ensures KeysIn(st, m) == SortKeys(st)
  {
    SortKeysAre(st);
    KeysMove(st, m, BeforeSort(st));
  }

  lemma ReadyNamesInside(st: ImageState, m: seq<byte>, hash: Hash)
    requires Layout(st) && TablesReady(st, m, hash) && NormalizeRc(st, hash) == Ok && (st.normalized ==> NamesOk(st))
    ensures NamesInside(TocIn(st, m), st.secs[STRINGS].size)
  {
    if !st.normalized {
      TocRcOk(st, Toc(st), |FixedToc(st)|);
      forall k | 0 <= k < TocCount(st) ensures TocIn(st, m)[k].id < st.secs[STRINGS].size {
        assert Normalizable(st, Toc(st)[k]);
        NormedPlaces(st, Toc(st)[k]);
      }
    }
  }

  /** The tables of the final image, whose empty sections have been cleared. */
  lemma FinalTables(st: ImageState, st': ImageState)
    requires SameBut(st, st') && Layout(st')
    ensures InTables(st, st'.mem) && Toc(st') == TocIn(st, st'.mem) && FixedToc(st') == RecordsIn(st, st'.mem)
    ensures 0 < st.secs[STRINGS].size ==> Names(st') == NamesIn(st, st'.mem)
  {
    TablesInMemory(st, st'.mem);
    assert InImage(st'.secs[TOC], st'.size) && InImage(st'.secs[FIXED_TOC], st'.size);
    assert st'.secs[TOC] == Cleared(st.secs[TOC]) && st'.secs[FIXED_TOC] == Cleared(st.secs[FIXED_TOC]);
    assert st'.secs[STRINGS] == Cleared(st.secs[STRINGS]);
  }

  lemma NormalizedImage(st: ImageState, m: seq<byte>, st': ImageState, hash: Hash)
    requires Layout(st) && (!st.sorted ==> NamesEnd(st)) && NormalizeRc(st, hash) == Ok
    requires TablesReady(st, m, hash) && SortedFrom(st, m, st'.mem)
    requires st' == st.(mem := st'.mem, secs := ClearedAll(st.secs), normalized := true, sorted := true)
    ensures NormalizePost(st, st', Ok, hash)
  {
    ClearedLayout(st, st');
    FinalTables(st, st');
  }

  /** The tables that are ready can be sorted, if the names can. */
  lemma TableSortable(st: ImageState, m: seq<byte>, hash: Hash, slots: nat)
    requires Layout(st) && TablesReady(st, m, hash) && NormalizeRc(st, hash) == Ok && SortFits(st, slots)
    ensures Sortable(st, m, slots)
  {
    if TocCount(st) == 0 {
      assert KeysIn(st, m) == [] == SortKeys(st);
    } else {
      ReadyNamesInside(st, m, hash);
      KeysToSort(st, m, hash);
    }
  }

  /** Sort the TOC and clear the offsets of empty sections, once the tables are ready. */
  method FinishNormalize(img: XipImage, hash: Hash, slots: nat, ghost st: ImageState) returns (rc: Rc)
    requires Layout(st) && NormalizeRc(st, hash) == Ok
    requires During(st.(normalized := true), img, img.mem[..]) && TablesReady(st, img.mem[..], hash)
    requires !st.sorted ==> SortFits(st, slots)
    modifies img, img.mem
    ensures rc == Ok && NormalizePost(st, img.State(), Ok, hash)
  {
    ghost var m := img.mem[..];
    if !img.tocSorted {
      TableSortable(st, m, hash, slots);
    }
    rc := SortToc(img, slots, st);
    ClearOffsets(img);
    ghost var st' := st.(mem := img.mem[..], secs := ClearedAll(st.secs), normalized := true, sorted := true);
    assert img.State() == st';
    NormalizedImage(st, m, st', hash);
  }

  /** Nothing to do for the tables of a normalized image; those of a linked one are normalized. */
  method PrepareTables(img: XipImage, hash: Hash) returns (rc: Rc)
    requires Layout(img.State()) && (QuickCheck(img.State(), false) == Ok && !img.normalized ==> NamesEnd(img.State()))
    modifies img`normalized, img.mem
    ensures rc == NormalizeRc(old(img.State()), hash)
    ensures rc == Ok ==> img.normalized && TablesReady(old(img.State()), img.mem[..], hash)
    ensures rc != Ok ==> FailedTables(old(img.State()), img.mem[..], hash)
  {
    ghost var st := img.State();
    NormStart(st, hash);
    rc := CheckHeader(img, false);
    if rc == Ok {
      if img.normalized {
        AlreadyReady(st, hash);
      } else {
        rc := NormalizeTables(img, hash);
      }
    }
  }

  /** The memory that a failing normalization leaves. */
  ghost predicate FailedTables(st: ImageState, m: seq<byte>, hash: Hash)
    requires Layout(st)
  {
    OthersKept(st, m) && m == if QuickCheck(st, false) == Ok then NormMemory(st, Stop(st), hash) else st.mem
  }

  lemma FailedImage(st: ImageState, st': ImageState, rc: Rc, hash: Hash)
    requires Layout(st) && rc == NormalizeRc(st, hash) != Ok && FailedTables(st, st'.mem, hash)
    requires st' == st.(mem := st'.mem, normalized := false)
    ensures NormalizePost(st, st', rc, hash)
  {
  }

  /** Normalize the image, whose sort has a stack of 64 slots. */
  method Normalize(img: XipImage, hash: Hash, slots: nat := SORT_STACK_SLOTS) returns (rc: Rc)
    requires Layout(img.State()) && NormalizeAllowed(img.State(), hash, slots)
    modifies img, img.mem
    ensures NormalizePost(old(img.State()), img.State(), rc, hash)
  {
    ghost var st := img.State();
    rc := PrepareTables(img, hash);
    if rc == Ok {
      rc := FinishNormalize(img, hash, slots, st);
    } else {
      img.normalized := false;
      FailedImage(st, img.State(), rc, hash);
    }
  }
}
