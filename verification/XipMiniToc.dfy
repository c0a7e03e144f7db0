/** The hashed mini-TOC answers for the full TOC once .toc has been deleted. */
module XipMiniToc {
  import opened Bytes
  import opened XipTypes
  import opened XipLayout
  import opened XipRepack
  import opened XipDeleteLaws
  import opened XipToc
  import opened XipFind
  import opened XipRelocate
  import opened XipSearch
  import opened XipCarry
  import opened XipRenormalize
  import opened XipRuns
  import opened XipNormalize
  import opened XipNormalizeLaws
  import opened XipNormalizeSteps

  /** Every .fixed entry among the first k of a linked table has its record, and every record comes from one. */
  lemma {:induction false} RecordsMatch(st: ImageState, t: seq<TocEntry>, k: nat, hash: Hash)
    requires |st.secs| == SECTIONS && k <= |t|
    ensures forall i :: 0 <= i < k && InFixed(Normed(st, t[i])) ==>
      Record(st, Normed(st, t[i]), hash) in RecordsBefore(st, t, k, hash)
    ensures forall h :: h in RecordsBefore(st, t, k, hash) ==> Recorded(st, t, k, h, hash)
  {
    if k > 0 {
      RecordsMatch(st, t, k - 1, hash);
      forall h | h in RecordsBefore(st, t, k, hash) ensures Recorded(st, t, k, h, hash) {
        if h in RecordsBefore(st, t, k - 1, hash) {
          assert Recorded(st, t, k - 1, h, hash);
        } else {
          assert h == Record(st, Normed(st, t[k - 1]), hash);
        }
      }
    }
  }

  ghost predicate Recorded(st: ImageState, t: seq<TocEntry>, k: nat, h: HashedToc, hash: Hash)
    requires |st.secs| == SECTIONS && k <= |t|
  {
    exists i :: 0 <= i < k && InFixed(Normed(st, t[i])) && h == Record(st, Normed(st, t[i]), hash)
  }

  /** Without collisions the search by hash finds the one record that has it. */
  lemma HashFound(records: seq<HashedToc>, h: HashedToc)
    requires !Collision(records) && h in records
    ensures HashIndex(records, h.hash, 0) != -1 && records[HashIndex(records, h.hash, 0)] == h
  {
    var i :| 0 <= i < |records| && records[i] == h;
    var r := HashIndex(records, h.hash, 0);
    forall k | 0 <= k < i ensures records[k].hash != h.hash {
      assert !(records[k].hash == records[i].hash);
    }
  }

  /** What a successful normalization leaves in the two tables: the mini-TOC holds exactly the records of the
      .fixed entries of the full TOC, with distinct hashes and without truncated offsets. */
  ghost predicate Indexed(st: ImageState, hash: Hash)
    requires Layout(st)
  {
    && NamesOk(st) && !Collision(FixedToc(st))
    && (forall e {:trigger HasRecord(st, e, hash)} :: e in Toc(st) && InFixed(e) ==> HasRecord(st, e, hash))
    && (forall h {:trigger FromFixed(st, h, hash)} :: h in FixedToc(st) ==> FromFixed(st, h, hash))
  }

  /** The record of the entry is in the mini-TOC, its offset not truncated. */
  ghost predicate HasRecord(st: ImageState, e: TocEntry, hash: Hash)
    requires Layout(st)
  {
    e.data < 0x1_0000 && Record(st, e, hash) in FixedToc(st)
  }

  /** The record is that of a .fixed entry of the full TOC. */
  ghost predicate FromFixed(st: ImageState, h: HashedToc, hash: Hash)
    requires Layout(st)
  {
    exists e :: e in Toc(st) && InFixed(e) && h == Record(st, e, hash)
  }

  lemma NormalizedEntry(st: ImageState, st': ImageState, e: TocEntry)
    requires SameBut(st, st') && StringsEnd(st) && e in NormedAll(st, Toc(st))
      && TocRc(st, Toc(st), |FixedToc(st)|) == Ok
    ensures e.id < st.secs[STRINGS].size && (InFixed(e) ==> e.data < 0x1_0000) && Name(st', e) == Name(st, e)
  {
    var t := NormedAll(st, Toc(st));
    var k :| 0 <= k < |t| && t[k] == e;
    TocRcOk(st, Toc(st), |FixedToc(st)|);
    assert Normalizable(st, Toc(st)[k]);
    NormedPlaces(st, Toc(st)[k]);
    NameInStrings(st, st', e);
  }

  lemma EntryHasRecord(st: ImageState, hash: Hash, e: TocEntry)
    requires Layout(st) && e in NormedAll(st, Toc(st)) && InFixed(e)
    ensures Record(st, e, hash) in Records(st, Toc(st), hash)
  {
    RecordsMatch(st, Toc(st), |Toc(st)|, hash);
    var t := NormedAll(st, Toc(st));
    var i :| 0 <= i < |t| && t[i] == e;
    assert t[i] == Normed(st, Toc(st)[i]);
  }

  lemma RecordHasEntry(st: ImageState, hash: Hash, h: HashedToc)
    requires Layout(st) && h in Records(st, Toc(st), hash)
    ensures exists e :: e in NormedAll(st, Toc(st)) && InFixed(e) && h == Record(st, e, hash)
  {
    RecordsMatch(st, Toc(st), |Toc(st)|, hash);
    assert Recorded(st, Toc(st), |Toc(st)|, h, hash);
    var i :| 0 <= i < |Toc(st)| && InFixed(Normed(st, Toc(st)[i])) && h == Record(st, Normed(st, Toc(st)[i]), hash);
    var e := NormedAll(st, Toc(st))[i];
    assert e in NormedAll(st, Toc(st)) && InFixed(e) && h == Record(st, e, hash);
  }

  /** Normalization builds the index. */
  lemma NormalizeIndexes(st: ImageState, st': ImageState, hash: Hash)
    requires Layout(st) && StringsEnd(st) && !st.normalized && NormalizePost(st, st', Ok, hash)
    ensures Layout(st') && Indexed(st', hash)
  {
    NormalizeKeepsLayout(st, st', Ok, hash);
    StringsStillEnd(st, st');
    var t := NormedAll(st, Toc(st));
    forall k | 0 <= k < |Toc(st')| ensures Toc(st')[k].id < st'.secs[STRINGS].size {
      SameMembers(Toc(st'), t, Toc(st')[k]);
      NormalizedEntry(st, st', Toc(st')[k]);
    }
    forall e {:trigger HasRecord(st', e, hash)} | e in Toc(st') && InFixed(e) ensures HasRecord(st', e, hash) {
      SameMembers(Toc(st'), t, e);
      NormalizedEntry(st, st', e);
      EntryHasRecord(st, hash, e);
    }
    forall h {:trigger FromFixed(st', h, hash)} | h in FixedToc(st') ensures FromFixed(st', h, hash) {
      RecordHasEntry(st, hash, h);
      var e :| e in t && InFixed(e) && h == Record(st, e, hash);
      SameMembers(Toc(st'), t, e);
      NormalizedEntry(st, st', e);
    }
  }

  /** The same item, seen through either table: position in .fixed, type and element count agree, and .fixed
      still begins with all its old bytes. Without .toc the item is partial: it has no TOC entry and no name. */
  ghost predicate SameFixedItem(st: ImageState, item: Item, r: ImageState, item': Item) {
    && Continued(st, r, FIXED) && TOC < |r.secs|
    && item'.imageData - r.secs[FIXED].offset == item.imageData - st.secs[FIXED].offset
    && item'.address == r.link + item'.imageData && r.link == st.link
    && item'.typ == item.typ && item'.elements == item.elements
    && (if r.secs[TOC].size == 0 then item'.partial && item'.toc.None? && item'.id.None?
        else item'.partial == item.partial && item'.toc.Some? == item.toc.Some? && item'.id == item.id)
  }

  /** The mini-TOC's answer for a name whose hash one record has. */
  lemma FixedFindRecord(r: ImageState, h: HashedToc, key: seq<byte>, hash: Hash)
    requires Layout(r) && r.secs[FIXED].size != 0 && !Collision(FixedToc(r)) && h in FixedToc(r) && h.hash == hash(key)
    ensures var at := r.secs[FIXED].offset + h.offset;
      FixedFind(r, key, hash) == Success(Item(None, r.link + at, at, None, h.typ, h.elements, true))
  {
    HashFound(FixedToc(r), h);
  }

  /** The entry of an item found in .fixed, and its record. */
  lemma FoundEntry(st: ImageState, e: TocEntry, key: seq<byte>, hash: Hash)
    requires Layout(st) && QuickCheck(st, true) == Ok && st.secs[TOC].size != 0 && Indexed(st, hash)
    requires Find(st, key, hash).Success? && e == Toc(st)[SearchIndex(st, key)] && InFixed(e)
    ensures var h := Record(st, e, hash);
      && h in FixedToc(st) && h.hash == hash(key) && h.offset == e.data && h.typ == e.typ && h.elements == e.elements
    ensures var item := Find(st, key, hash).value;
      item.imageData == st.secs[FIXED].offset + e.data && item.typ == e.typ && item.elements == e.elements
    ensures st.secs[FIXED].size != 0
  {
    assert Names(st)[SearchIndex(st, key)] == Name(st, e) == key;
    assert HasRecord(st, e, hash);
  }

  /** Without .toc the mini-TOC, holding what it held, finds what the full TOC found in .fixed. */
  lemma MiniTocFinds(st: ImageState, r: ImageState, key: seq<byte>, hash: Hash)
    requires Layout(st) && QuickCheck(st, true) == Ok && st.secs[TOC].size != 0 && Indexed(st, hash)
    requires Layout(r) && QuickCheck(r, true) == Ok && r.secs[TOC].size == 0 && r.link == st.link
    requires FixedToc(r) == FixedToc(st) && Continued(st, r, FIXED)
    requires Find(st, key, hash).Success? && InFixed(Toc(st)[SearchIndex(st, key)])
    ensures Find(r, key, hash).Success? && SameFixedItem(st, Find(st, key, hash).value, r, Find(r, key, hash).value)
  {
    var e := Toc(st)[SearchIndex(st, key)];
    FoundEntry(st, e, key, hash);
    FixedFindRecord(r, Record(st, e, hash), key, hash);
  }

  /** The mini-TOC refines the full TOC: whatever p9_xip_find found in .fixed through the full TOC it still
      finds after .toc has been deleted, and .fixed is as it was. */
  lemma MiniTocRefinesToc(st: ImageState, hasBuffer: bool, bufferSize: nat, key: seq<byte>, hash: Hash)
    requires Layout(st) && QuickCheck(st, true) == Ok && st.secs[TOC].size != 0 && Indexed(st, hash)
    requires DeleteOutcome(st, hasBuffer, bufferSize, TOC).rc == Ok
    requires Find(st, key, hash).Success? && InFixed(Toc(st)[SearchIndex(st, key)])
    ensures Layout(DeleteOutcome(st, hasBuffer, bufferSize, TOC).image)
    ensures Find(DeleteOutcome(st, hasBuffer, bufferSize, TOC).image, key, hash).Success?
    ensures var r := DeleteOutcome(st, hasBuffer, bufferSize, TOC).image;
      && r.secs[TOC].size == 0 && SameSection(st, r, FIXED)
      && SameFixedItem(st, Find(st, key, hash).value, r, Find(r, key, hash).value)
  {
    var r := DeleteOutcome(st, hasBuffer, bufferSize, TOC).image;
    DeleteRepacks(st, hasBuffer, bufferSize, TOC);
    DeleteCarries(st, hasBuffer, bufferSize, TOC);
    RepackedSame(st, TOC, r, FIXED);
    assert Kept(st, TOC, r, TOC);
    CarriedIs(st, {TOC}, {TOC}, r, FIXED);
    RepackedSame(st, TOC, r, FIXED_TOC);
    FixedTocKept(st, r);
    MiniTocFinds(st, r, key, hash);
  }

  // ---- over runs

  /** The index stays an index when the TOC has the same entries with the same names, and the mini-TOC is as it was. */
  lemma IndexKept(st: ImageState, r: ImageState, hash: Hash)
    requires Layout(st) && Layout(r) && Indexed(st, hash) && NamesOk(r)
    requires SameTable(st, r) && FixedToc(r) == FixedToc(st)
    ensures Indexed(r, hash)
  {
    forall e {:trigger HasRecord(r, e, hash)} | e in Toc(r) && InFixed(e) ensures HasRecord(r, e, hash) {
      SameMembers(Toc(r), Toc(st), e);
      assert HasRecord(st, e, hash) && Name(r, e) == Name(st, e);
    }
    forall h {:trigger FromFixed(r, h, hash)} | h in FixedToc(r) ensures FromFixed(r, h, hash) {
      RecordFromFixed(st, r, h, hash);
    }
  }

  lemma RecordFromFixed(st: ImageState, r: ImageState, h: HashedToc, hash: Hash)
    requires Layout(st) && Layout(r) && SameTable(st, r) && FromFixed(st, h, hash)
    ensures FromFixed(r, h, hash)
  {
    var e :| e in Toc(st) && InFixed(e) && h == Record(st, e, hash);
    SameMembers(Toc(r), Toc(st), e);
    assert Name(r, e) == Name(st, e);
  }

  /** The first n calls neither append to .fixed_toc nor delete it. */
  predicate FixedTocSpared(calls: seq<Call>, codes: seq<Rc>, n: nat)
    requires n <= |calls| == |codes|
  {
    forall i {:trigger calls[i]} :: 0 <= i < n ==> SparesFixedToc(calls[i], codes[i])
  }

  predicate SparesFixedToc(call: Call, rc: Rc) {
    call.CallNormalize? || FIXED_TOC !in TouchedBy(call, rc)
  }

  lemma StepKeepsFixedToc(st: ImageState, call: Call, st': ImageState, rc: Rc)
    requires Layout(st) && Step(st, call, st', rc) && SparesFixedToc(call, rc)
    requires call.CallNormalize? ==> QuickCheck(st, true) == Ok
    ensures Layout(st') && FixedToc(st') == FixedToc(st)
    ensures QuickCheck(st, true) == Ok ==> QuickCheck(st', true) == Ok
  {
    if call.CallNormalize? {
      NormalizeKeepsLayout(st, st', rc, call.hash);
    } else {
      StepCarries(st, call, st', rc);
      CarriedIs(st, TouchedBy(call, rc), GoneBy(call, rc), st', FIXED_TOC);
      FixedTocKept(st, st');
    }
  }

  /** Over a run that spares it the mini-TOC holds what it held; normalizing again does not change it. */
  lemma {:induction false} RunKeepsFixedToc(images: seq<ImageState>, calls: seq<Call>, codes: seq<Rc>, n: nat)
    requires Run(images, calls, codes) && n <= |calls| && FixedTocSpared(calls, codes, n)
    requires NoNormalization(calls, n) || QuickCheck(images[0], true) == Ok
    ensures Layout(images[n]) && FixedToc(images[n]) == FixedToc(images[0])
    ensures QuickCheck(images[0], true) == Ok ==> QuickCheck(images[n], true) == Ok
  {
    if n > 0 {
      RunKeepsFixedToc(images, calls, codes, n - 1);
      assert SparesFixedToc(calls[n - 1], codes[n - 1]);
      StepKeepsFixedToc(images[n - 1], calls[n - 1], images[n], codes[n - 1]);
    }
  }

  /** After any run that spares .fixed_toc and does not delete .fixed, what p9_xip_find found in .fixed at the start
      it still finds: through the full TOC as long as this is there, spared like .strings, and through the mini-TOC
      once it is gone, whatever has become of .strings. Normalizing again is fine, with a TOC of distinct names. */
  lemma FixedItemsSurvive(images: seq<ImageState>, calls: seq<Call>, codes: seq<Rc>, n: nat, key: seq<byte>, hash: Hash)
    requires Run(images, calls, codes) && n <= |calls| && Searchable(images[0]) && Indexed(images[0], hash)
    requires Find(images[0], key, hash).Success? && InFixed(Toc(images[0])[SearchIndex(images[0], key)])
    requires FixedTocSpared(calls, codes, n) && FIXED !in Gone(calls, codes, n)
    requires Absent(images[n], TOC)
      || (TablesSpared(calls, codes, n) && (NoNormalization(calls, n) || Distinct(Names(images[0]))))
    ensures Layout(images[n]) && Find(images[n], key, hash).Success?
    ensures SameFixedItem(images[0], Find(images[0], key, hash).value, images[n], Find(images[n], key, hash).value)
    ensures !Absent(images[n], TOC) ==> Searchable(images[n]) && Indexed(images[n], hash)
    ensures !Absent(images[n], TOC) && NoNormalization(calls, n) ==>
      Find(images[n], key, hash).value.toc == Find(images[0], key, hash).value.toc
  {
    RunKeepsFixedToc(images, calls, codes, n);
    RunKeepsSections(images, calls, codes, n);
    CarriedIs(images[0], Touched(calls, codes, n), Gone(calls, codes, n), images[n], FIXED);
    if Absent(images[n], TOC) {
      MiniTocFinds(images[0], images[n], key, hash);
    } else {
      RunFollows(images, calls, codes, n, key);
      LookupsFollow(images, calls, codes, n, key, hash);
      IndexKept(images[0], images[n], hash);
      if NoNormalization(calls, n) {
        SparedUntouched(calls, codes, n);
        LookupsSurvive(images, calls, codes, n, key, hash);
      }
    }
  }

  /** The answers of the mini-TOC itself, for any key and whatever the other sections do. */
  lemma MiniTocSurvives(images: seq<ImageState>, calls: seq<Call>, codes: seq<Rc>, n: nat, key: seq<byte>, hash: Hash)
    requires Run(images, calls, codes) && n <= |calls| && !Absent(images[0], FIXED)
    requires NoNormalization(calls, n) || QuickCheck(images[0], true) == Ok
    requires FixedTocSpared(calls, codes, n) && FIXED !in Gone(calls, codes, n)
    ensures Layout(images[n])
    ensures var before, after := FixedFind(images[0], key, hash), FixedFind(images[n], key, hash);
      if before.Failure? then after == before
      else
        && after.Success? && MovedItem(images[0], before.value, images[n], after.value, FIXED)
        && Continued(images[0], images[n], FIXED)
  {
    RunKeepsFixedToc(images, calls, codes, n);
    RunKeepsSections(images, calls, codes, n);
    CarriedIs(images[0], Touched(calls, codes, n), Gone(calls, codes, n), images[n], FIXED);
  }

  /** Exactly which names the mini-TOC answers for: those whose hash is the hash of some .fixed item's name. */
  lemma MiniTocAnswersIff(st: ImageState, key: seq<byte>, hash: Hash)
    requires Layout(st) && Indexed(st, hash) && st.secs[FIXED].size != 0
    ensures FixedFind(st, key, hash).Success? <==>
      exists e :: e in Toc(st) && InFixed(e) && hash(Name(st, e)) == hash(key)
  {
    var records := FixedToc(st);
    var k := HashIndex(records, hash(key), 0);
    if k != -1 {
      assert records[k] in records && FromFixed(st, records[k], hash);
      var e :| e in Toc(st) && InFixed(e) && records[k] == Record(st, e, hash);
    } else if exists e :: e in Toc(st) && InFixed(e) && hash(Name(st, e)) == hash(key) {
      var e :| e in Toc(st) && InFixed(e) && hash(Name(st, e)) == hash(key);
      assert HasRecord(st, e, hash);
      HashFound(records, Record(st, e, hash));
    }
  }
}
