/** What appends and deletes keep of the sections they do not touch, and of the sections they only extend. */
module XipCarry {
  import opened Bytes
  import opened XipTypes
  import opened XipLayout
  import opened XipAppend
  import opened XipRepack
  import opened XipDeleteLaws
  import opened XipToc
  import opened XipFind
  import opened XipRelocate

  /** The section still begins with all its old bytes. */
  ghost predicate Continued(st: ImageState, r: ImageState, i: nat) {
    && i < |st.secs| && i < |r.secs|
    && SectionEnd(st.secs[i]) <= |st.mem| && SectionEnd(r.secs[i]) <= |r.mem|
    && Body(st, i) <= Body(r, i)
  }

  ghost predicate CarriedSection(st: ImageState, touched: set<int>, gone: set<int>, r: ImageState, i: nat) {
    (i !in touched ==> SameSection(st, r, i)) && (i !in gone ==> Continued(st, r, i))
  }

  /** From st to r only the sections `touched` have been written to, and of these only those in `gone` deleted or
      rewritten. */
  ghost predicate KeepsSections(st: ImageState, touched: set<int>, gone: set<int>, r: ImageState) {
    && Layout(st) && Layout(r) && r.magic == st.magic && r.version == st.version && r.link == st.link
    && forall i {:trigger CarriedSection(st, touched, gone, r, i)} :: 0 <= i < SECTIONS ==>
      CarriedSection(st, touched, gone, r, i)
  }

  /** What appends and deletes do: of the flags they clear that of a sorted TOC at most. */
  ghost predicate Carries(st: ImageState, touched: set<int>, gone: set<int>, r: ImageState) {
    KeepsSections(st, touched, gone, r) && r.normalized == st.normalized && (r.sorted ==> st.sorted)
  }

  lemma CarriedIs(st: ImageState, touched: set<int>, gone: set<int>, r: ImageState, i: nat)
    requires KeepsSections(st, touched, gone, r) && i < SECTIONS
    ensures i !in touched ==> SameSection(st, r, i)
    ensures i !in gone ==> Continued(st, r, i)
  {
    assert CarriedSection(st, touched, gone, r, i);
  }

  lemma SectionChain(a: ImageState, b: ImageState, c: ImageState, i: nat)
    ensures SameSection(a, b, i) && SameSection(b, c, i) ==> SameSection(a, c, i)
    ensures Continued(a, b, i) && Continued(b, c, i) ==> Continued(a, c, i)
  {
  }

  /** What two runs keep, their succession keeps. */
  lemma KeepsChain(a: ImageState, t: set<int>, g: set<int>, b: ImageState, t': set<int>, g': set<int>, c: ImageState)
    requires KeepsSections(a, t, g, b) && KeepsSections(b, t', g', c)
    ensures KeepsSections(a, t + t', g + g', c)
  {
    forall i {:trigger CarriedSection(a, t + t', g + g', c, i)} | 0 <= i < SECTIONS
      ensures CarriedSection(a, t + t', g + g', c, i)
    {
      CarriedIs(a, t, g, b, i);
      CarriedIs(b, t', g', c, i);
      SectionChain(a, b, c, i);
    }
  }

  lemma UnwrittenCarries(st: ImageState, r: ImageState)
    requires Layout(st) && Layout(r) && r == st.(mem := r.mem) && |r.mem| == |st.mem|
    requires forall i :: 0 <= i < SECTIONS ==> SectionEnd(st.secs[i]) <= |st.mem| && Body(r, i) == Body(st, i)
    ensures Carries(st, {}, {}, r)
  {
    forall i {:trigger CarriedSection(st, {}, {}, r, i)} | 0 <= i < SECTIONS ensures CarriedSection(st, {}, {}, r, i) {
      assert Body(r, i) == Body(st, i);
    }
  }

  lemma SameCarries(st: ImageState, gone: set<int>)
    requires Layout(st)
    ensures Carries(st, gone, gone, st)
  {
    forall i {:trigger CarriedSection(st, gone, gone, st, i)} | 0 <= i < SECTIONS
      ensures CarriedSection(st, gone, gone, st, i)
    {
      assert InImage(st.secs[i], st.size);
    }
  }

  lemma AppendedCarries(st: ImageState, id: nat, data: seq<byte>, allocation: nat, dd: nat)
    requires CanAppend(st, id, data, allocation)
    ensures AppendStart(st, id) + |data| <= |st.mem|
    ensures Carries(st, {id}, {}, Appended(st, id, data, dd))
  {
    AppendKeepsLayout(st, id, data, allocation, dd);
    AppendKeepsBodies(st, id, data, allocation, dd);
    var r := Appended(st, id, data, dd);
    forall i {:trigger CarriedSection(st, {id}, {}, r, i)} | 0 <= i < SECTIONS
      ensures CarriedSection(st, {id}, {}, r, i)
    {
      assert InImage(st.secs[i], st.size) && InImage(r.secs[i], r.size);
    }
  }

  lemma RepackedCarries(st: ImageState, id: nat, r: ImageState)
    requires Repacked(st, id, r) && (r.sorted ==> st.sorted)
    ensures Carries(st, {id}, {id}, r)
  {
    forall i {:trigger CarriedSection(st, {id}, {id}, r, i)} | 0 <= i < SECTIONS
      ensures CarriedSection(st, {id}, {id}, r, i)
    {
      if i != id {
        RepackedSame(st, id, r, i);
      }
    }
  }

  /** An append, successful or not, touches at most its section. */
  lemma AppendCarries(st: ImageState, st': ImageState, id: int, data: seq<byte>, allocation: nat, dd: nat, rc: Rc)
    requires Layout(st) && allocation <= |st.mem| && allocation < U32_LIMIT
    requires AppendPost(st, st', id, data, allocation, dd, rc)
    ensures Carries(st, if rc == Ok && data != [] then {id} else {}, {}, st')
  {
    if rc != Ok {
      FailedAppendKeepsImage(st, st', id, data, allocation, dd, rc);
      UnwrittenCarries(st, st');
    } else if data == [] {
      SameCarries(st, {});
    } else {
      AppendedCarries(st, id, data, allocation, dd);
    }
  }

  /** A delete, successful or not, loses at most its section. */
  lemma DeleteCarries(st: ImageState, hasBuffer: bool, bufferSize: nat, id: int)
    requires Layout(st)
    ensures var o := DeleteOutcome(st, hasBuffer, bufferSize, id);
      var gone := if o.rc == Ok then {id} else {};
      Carries(st, gone, gone, o.image)
  {
    var o := DeleteOutcome(st, hasBuffer, bufferSize, id);
    if o.rc == Ok && st.secs[id].size != 0 {
      DeleteRepacks(st, hasBuffer, bufferSize, id);
      DeleteSorted(st, hasBuffer, bufferSize, id);
      RepackedCarries(st, id, o.image);
    } else {
      SameCarries(st, if o.rc == Ok then {id} else {});
    }
  }

  // ---- lookups

  /** What a lookup in r gives, from what it gave in st: the search ends at the same entry, and what the entry
      says of a section that has not been deleted meanwhile is as it was. */
  ghost predicate LookupCarried(st: ImageState, gone: set<int>, r: ImageState, key: seq<byte>, hash: Hash)
    requires Layout(st) && Layout(r)
  {
    var before, after, k := Find(st, key, hash), Find(r, key, hash), SearchIndex(st, key);
    if k == -1 then before == after == Failure(ItemNotFound)
    else
      var section := Toc(st)[k].section as int;
      if section >= SECTIONS then before == after == Failure(InvalidArgument)
      else
        && before.Success? == (st.secs[section].size != 0) && after.Success? == (r.secs[section].size != 0)
        && (before.Failure? ==> before.rc == DataNotPresent) && (after.Failure? ==> after.rc == DataNotPresent)
        && (before.Success? && section !in gone ==>
              after.Success? && MovedItem(st, before.value, r, after.value, section) && Continued(st, r, section))
  }

  /** A searchable image stays searchable while .toc and .strings are not touched. */
  lemma SearchableCarried(st: ImageState, touched: set<int>, gone: set<int>, r: ImageState)
    requires Searchable(st) && Carries(st, touched, gone, r) && TOC !in touched && STRINGS !in touched
    ensures Searchable(r) && Toc(r) == Toc(st) && Names(r) == Names(st)
  {
    CarriedIs(st, touched, gone, r, TOC);
    CarriedIs(st, touched, gone, r, STRINGS);
    TocKept(st, r);
    NamesKept(st, r);
  }

  lemma LookupCarries(st: ImageState, touched: set<int>, gone: set<int>, r: ImageState, key: seq<byte>, hash: Hash)
    requires Searchable(st) && Carries(st, touched, gone, r) && TOC !in touched && STRINGS !in touched
    ensures Searchable(r) && LookupCarried(st, gone, r, key, hash)
  {
    SearchableCarried(st, touched, gone, r);
    CarriedIs(st, touched, gone, r, TOC);
    CarriedIs(st, touched, gone, r, STRINGS);
    SearchKept(st, r, key);
    var k := SearchIndex(st, key);
    if k != -1 {
      assert Names(r)[k] == Names(st)[k];
      DecodeCarried(st, touched, gone, r, Toc(st)[k], k);
    }
  }

  lemma DecodeCarried(st: ImageState, touched: set<int>, gone: set<int>, r: ImageState, e: TocEntry, k: nat)
    requires Carries(st, touched, gone, r) && st.normalized && Name(r, e) == Name(st, e)
    ensures e.section as int < SECTIONS && e.section as int !in gone && Decode(st, e, k).Success? ==>
      && Decode(r, e, k).Success? && Continued(st, r, e.section as int)
      && MovedItem(st, Decode(st, e, k).value, r, Decode(r, e, k).value, e.section as int)
  {
    if e.section as int < SECTIONS {
      CarriedIs(st, touched, gone, r, e.section as int);
    }
  }
}
