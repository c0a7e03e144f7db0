/** Normalizing an image again sorts a TOC that a delete has moved, and lookups cannot tell. */
module XipRenormalize {
  import opened Bytes
  import opened CStrings
  import opened XipTypes
  import opened XipLayout
  import opened XipRepack
  import opened XipToc
  import opened XipSearch
  import opened XipFind
  import opened XipRelocate
  import opened XipCarry
  import opened XipSortSpec
  import opened XipNormalize
  import opened XipNormalizeSteps
  import opened XipNormalizeLaws

  // ---- tables whose entries have been rearranged

  predicate NoRepeats(t: seq<TocEntry>) {
    forall i, j :: 0 <= i < j < |t| ==> t[i] != t[j]
  }

  lemma CountedOnce(t: seq<TocEntry>, e: TocEntry)
    requires NoRepeats(t)
    ensures multiset(t)[e] <= 1
  {
    if e in t {
      var k :| 0 <= k < |t| && t[k] == e;
      TakenOut(t, k);
      var rest := Without(t, k);
      forall i | 0 <= i < |rest| ensures rest[i] != e {
        assert rest[i] == if i < k then t[i] else t[i + 1];
      }
      assert e !in rest;
    }
  }

  lemma RepeatCounted(t: seq<TocEntry>, i: nat, j: nat)
    requires i < j < |t| && t[i] == t[j]
    ensures multiset(t)[t[i]] >= 2
  {
    TakenOut(t, i);
    assert Without(t, i)[j - 1] == t[j];
    assert t[i] in Without(t, i);
  }

  lemma RearrangedNoRepeats(a: seq<TocEntry>, b: seq<TocEntry>)
    requires SameEntries(a, b) && NoRepeats(a)
    ensures NoRepeats(b)
  {
    forall i, j | 0 <= i < j < |b| ensures b[i] != b[j] {
      if b[i] == b[j] {
        RepeatCounted(b, i, j);
        CountedOnce(a, b[i]);
      }
    }
  }

  /** The same entries in some order, with the same names. */
  ghost predicate SameTable(st: ImageState, r: ImageState) {
    && Bounded(st) && Bounded(r) && SameEntries(Toc(r), Toc(st))
    && forall e {:trigger Name(r, e)} :: e in Toc(st) ==> Name(r, e) == Name(st, e)
  }

  lemma TableBack(st: ImageState, r: ImageState)
    requires SameTable(st, r)
    ensures SameTable(r, st)
  {
    forall e {:trigger Name(st, e)} | e in Toc(r) ensures Name(st, e) == Name(r, e) {
      SameMembers(Toc(r), Toc(st), e);
    }
  }

  lemma NamesOfEntries(st: ImageState, r: ImageState)
    requires Bounded(st) && Bounded(r) && Toc(r) == Toc(st) && Names(r) == Names(st)
    ensures SameTable(st, r)
  {
    forall e {:trigger Name(r, e)} | e in Toc(st) ensures Name(r, e) == Name(st, e) {
      var i :| 0 <= i < |Toc(st)| && Toc(st)[i] == e;
      assert Names(r)[i] == Name(r, e) && Names(st)[i] == Name(st, e);
    }
  }

  lemma TableChain(a: ImageState, b: ImageState, c: ImageState)
    requires SameTable(a, b) && SameTable(b, c)
    ensures SameTable(a, c)
  {
    forall e {:trigger Name(c, e)} | e in Toc(a) ensures Name(c, e) == Name(a, e) {
      SameMembers(Toc(b), Toc(a), e);
      assert Name(b, e) == Name(a, e);
    }
  }

  lemma NamesAtEntries(st: ImageState, i: nat, j: nat)
    requires Bounded(st) && Distinct(Names(st)) && i < |Toc(st)| && j < |Toc(st)|
    ensures Name(st, Toc(st)[i]) == Name(st, Toc(st)[j]) ==> i == j
  {
    assert Names(st)[i] == Name(st, Toc(st)[i]) && Names(st)[j] == Name(st, Toc(st)[j]);
  }

  lemma DistinctHasNoRepeats(st: ImageState)
    requires Bounded(st) && Distinct(Names(st))
    ensures NoRepeats(Toc(st))
  {
    forall i, j | 0 <= i < j < |Toc(st)| ensures Toc(st)[i] != Toc(st)[j] {
      NamesAtEntries(st, i, j);
    }
  }

  /** Entries with one name are one entry. */
  lemma OneEntry(st: ImageState, e: TocEntry, e': TocEntry)
    requires Bounded(st) && Distinct(Names(st)) && e in Toc(st) && e' in Toc(st) && Name(st, e) == Name(st, e')
    ensures e == e'
  {
    var i, j :| 0 <= i < |Toc(st)| && Toc(st)[i] == e && 0 <= j < |Toc(st)| && Toc(st)[j] == e';
    NamesAtEntries(st, i, j);
  }

  /** Names stay distinct when the table is rearranged. */
  lemma DistinctRearranged(st: ImageState, r: ImageState)
    requires SameTable(st, r) && Distinct(Names(st))
    ensures Distinct(Names(r))
  {
    DistinctHasNoRepeats(st);
    RearrangedNoRepeats(Toc(st), Toc(r));
    forall i, j | 0 <= i < j < |Names(r)| ensures Names(r)[i] != Names(r)[j] {
      var e, e' := Toc(r)[i], Toc(r)[j];
      SameMembers(Toc(r), Toc(st), e);
      SameMembers(Toc(r), Toc(st), e');
      assert e != e' && Name(r, e) == Name(st, e) && Name(r, e') == Name(st, e');
      if Name(st, e) == Name(st, e') {
        OneEntry(st, e, e');
      }
    }
  }

  // ---- lookups by entry

  /** The entry at which the search for a name ends. */
  ghost function EntryFor(st: ImageState, key: seq<byte>): Option<TocEntry>
    requires Bounded(st)
  {
    if SearchIndex(st, key) == -1 then None else Some(Toc(st)[SearchIndex(st, key)])
  }

  lemma SearchIsLinear(st: ImageState, key: seq<byte>)
    requires Searchable(st)
    ensures SearchIndex(st, key) == LinearIndex(Names(st), key, 0)
  {
    if st.sorted {
      SearchesAgree(Names(st), key);
    }
  }

  /** The search ends at an entry with the name, and finds one when there is one. */
  lemma EntryForIs(st: ImageState, key: seq<byte>)
    requires Searchable(st)
    ensures match EntryFor(st, key)
      case Some(e) => e in Toc(st) && Name(st, e) == key
      case None => forall e {:trigger Name(st, e)} :: e in Toc(st) ==> Name(st, e) != key
  {
    SearchIsLinear(st, key);
    var k := SearchIndex(st, key);
    if k != -1 {
      assert Names(st)[k] == Name(st, Toc(st)[k]);
    } else {
      forall e {:trigger Name(st, e)} | e in Toc(st) ensures Name(st, e) != key {
        var i :| 0 <= i < |Toc(st)| && Toc(st)[i] == e;
        assert Names(st)[i] == Name(st, e);
      }
    }
  }

  /** In a rearranged table with distinct names every search ends at the same entry. */
  lemma EntryForRearranged(st: ImageState, r: ImageState, key: seq<byte>)
    requires Searchable(st) && Searchable(r) && SameTable(st, r) && Distinct(Names(st))
    ensures EntryFor(r, key) == EntryFor(st, key)
  {
    EntryForIs(st, key);
    EntryForIs(r, key);
    match EntryFor(r, key) {
      case Some(e) =>
        SameMembers(Toc(r), Toc(st), e);
        assert Name(r, e) == Name(st, e);
        OneEntry(st, e, EntryFor(st, key).value);
      case None =>
        if EntryFor(st, key).Some? {
          SameMembers(Toc(r), Toc(st), EntryFor(st, key).value);
        }
    }
  }

  // ---- normalizing again

  lemma RenormalizedTable(st: ImageState, st': ImageState, hash: Hash)
    requires Layout(st) && st.normalized && NamesOk(st) && NormalizePost(st, st', Ok, hash)
    ensures Layout(st') && NamesOk(st') && SameTable(st, st')
  {
    NormalizeKeepsLayout(st, st', Ok, hash);
    StringsStillEnd(st, st');
    forall e {:trigger Name(st', e)} | e in Toc(st) ensures Name(st', e) == Name(st, e) {
      NameInStrings(st, st', e);
    }
    forall k | 0 <= k < |Toc(st')| ensures Toc(st')[k].id < st'.secs[STRINGS].size {
      SameMembers(Toc(st'), Toc(st), Toc(st')[k]);
    }
  }

  lemma SortedDistinct(names: seq<seq<byte>>)
    requires Sorted(names) && Distinct(names)
    ensures StrictlyIncreasing(names)
  {
    forall i, j | 0 <= i < j < |names| ensures Less(names[i], names[j]) {
      assert LessEq(names[i], names[j]) && names[i] != names[j];
    }
  }

  /** Normalizing a searchable image again succeeds, and the image it leaves, whose TOC is flagged as sorted, is
      searchable if and only if no name occurs twice. */
  lemma RenormalizedSearchable(st: ImageState, st': ImageState, rc: Rc, hash: Hash)
    requires Searchable(st) && NormalizePost(st, st', rc, hash)
    ensures rc == Ok && SameTable(st, st') && st'.sorted && (Searchable(st') <==> Distinct(Names(st)))
    ensures Distinct(Names(st)) ==> Distinct(Names(st'))
  {
    RenormalizedTable(st, st', hash);
    assert st'.secs[TOC] == Cleared(st.secs[TOC]);
    if Distinct(Names(st)) {
      DistinctRearranged(st, st');
      if st.sorted {
        assert Names(st') == Names(st);
      } else {
        SortedDistinct(Names(st'));
      }
    }
    if Searchable(st') {
      IncreasingIsDistinct(Names(st'));
      TableBack(st, st');
      DistinctRearranged(st', st);
    }
  }

  /** Only the two tables are rewritten by a normalization, successful or not. */
  lemma NormalizeKeepsSections(st: ImageState, st': ImageState, rc: Rc, hash: Hash)
    requires Layout(st) && NormalizePost(st, st', rc, hash)
    ensures KeepsSections(st, {TOC, FIXED_TOC}, {TOC, FIXED_TOC}, st')
  {
    NormalizeKeepsLayout(st, st', rc, hash);
    var both := {TOC, FIXED_TOC};
    forall i {:trigger CarriedSection(st, both, both, st', i)} | 0 <= i < SECTIONS
      ensures CarriedSection(st, both, both, st', i)
    {
      if i !in both {
        OtherSectionSame(st, st', i);
      }
    }
  }

  lemma OtherSectionSame(st: ImageState, st': ImageState, i: nat)
    requires Layout(st) && OthersKept(st, st'.mem) && (st'.secs == st.secs || st'.secs == ClearedAll(st.secs))
    requires i < SECTIONS && i != TOC && i != FIXED_TOC
    ensures SameSection(st, st', i) && Continued(st, st', i)
  {
    assert InImage(st.secs[i], st.size);
    if st.secs[i].size != 0 {
      OtherBodyUnchanged(st, st', i);
    }
  }

  // ---- lookups after it

  /** The same lookup, up to the index of the entry. */
  ghost predicate SameLookup(before: Result<Item>, after: Result<Item>) {
    match before
    case Failure(rc) => after == before
    case Success(item) => after.Success? && after.value.(toc := item.toc) == item
  }

  /** Normalizing an image with distinct names again is invisible to lookups: every name gives the same error or
      the same item, while the search is binary again. */
  lemma RenormalizationInvisible(st: ImageState, st': ImageState, rc: Rc, key: seq<byte>, hash: Hash)
    requires Searchable(st) && Distinct(Names(st)) && NormalizePost(st, st', rc, hash)
    ensures rc == Ok && Searchable(st') && Distinct(Names(st')) && st'.sorted
    ensures EntryFor(st', key) == EntryFor(st, key) && SameLookup(Find(st, key, hash), Find(st', key, hash))
  {
    RenormalizedSearchable(st, st', rc, hash);
    EntryForRearranged(st, st', key);
    EntryForIs(st, key);
    if EntryFor(st, key).Some? {
      var e := EntryFor(st, key).value;
      assert Name(st', e) == Name(st, e);
      DecodeAgain(st, st', e, SearchIndex(st, key), SearchIndex(st', key));
    }
  }

  lemma DecodeAgain(st: ImageState, st': ImageState, e: TocEntry, k: nat, k': nat)
    requires |st.secs| == SECTIONS && st'.secs == ClearedAll(st.secs) && st'.link == st.link
    requires st.normalized && st'.normalized && Name(st', e) == Name(st, e)
    ensures SameLookup(Decode(st, e, k), Decode(st', e, k'))
  {
  }

  /** What a lookup in r gives, from what it gave in st: the search ends at the same entry, and what the entry says
      of a section that has not been deleted meanwhile is as it was. */
  ghost predicate LookupFollowed(st: ImageState, gone: set<int>, r: ImageState, key: seq<byte>, hash: Hash)
    requires Layout(st) && Layout(r)
  {
    var before, after := Find(st, key, hash), Find(r, key, hash);
    && EntryFor(r, key) == EntryFor(st, key)
    && match EntryFor(st, key)
       case None => before == after == Failure(ItemNotFound)
       case Some(e) =>
         var section := e.section as int;
         if section >= SECTIONS then before == after == Failure(InvalidArgument)
         else
           && before.Success? == (st.secs[section].size != 0) && after.Success? == (r.secs[section].size != 0)
           && (before.Failure? ==> before.rc == DataNotPresent) && (after.Failure? ==> after.rc == DataNotPresent)
           && (before.Success? && section !in gone ==>
                 && after.Success? && MovedItem(st, before.value, r, after.value.(toc := before.value.toc), section)
                 && Continued(st, r, section))
  }

  /** The image r has come from st with its names in place. */
  ghost predicate Follows(st: ImageState, r: ImageState, key: seq<byte>) {
    && Searchable(st) && Searchable(r) && SameTable(st, r) && EntryFor(r, key) == EntryFor(st, key)
    && (Distinct(Names(st)) ==> Distinct(Names(r)))
  }

  lemma FollowedLookup(st: ImageState, touched: set<int>, gone: set<int>, r: ImageState, key: seq<byte>, hash: Hash)
    requires Follows(st, r, key) && KeepsSections(st, touched, gone, r)
    ensures LookupFollowed(st, gone, r, key, hash)
  {
    EntryForIs(st, key);
    if EntryFor(st, key).Some? {
      var e := EntryFor(st, key).value;
      assert Name(r, e) == Name(st, e);
      DecodeFollowed(st, touched, gone, r, e, SearchIndex(st, key), SearchIndex(r, key));
    }
  }

  lemma DecodeFollowed(st: ImageState, touched: set<int>, gone: set<int>, r: ImageState, e: TocEntry, k: nat, k': nat)
    requires KeepsSections(st, touched, gone, r) && st.normalized && r.normalized && Name(r, e) == Name(st, e)
    ensures e.section as int < SECTIONS && e.section as int !in gone && Decode(st, e, k).Success? ==>
      && Decode(r, e, k').Success? && Continued(st, r, e.section as int)
      && MovedItem(st, Decode(st, e, k).value, r, Decode(r, e, k').value.(toc := Some(k)), e.section as int)
  {
    if e.section as int < SECTIONS {
      CarriedIs(st, touched, gone, r, e.section as int);
    }
  }
}
