/** Runs of appends, deletes and normalizations: what every image along the way satisfies. */
module XipRuns {
  import opened Bytes
  import opened XipTypes
  import opened XipLayout
  import opened XipAppend
  import opened XipDelete
  import opened XipRepack
  import opened XipDeleteLaws
  import opened XipSearch
  import opened XipFind
  import opened XipRelocate
  import opened XipCarry
  import opened XipRenormalize
  import opened XipNormalizeLaws
  import opened XipNormalizeSteps
  import opened XipSort
  import opened XipValidate

  datatype Call =
    | CallAppend(id: int, data: seq<byte>, allocation: nat, dd: nat)
    | CallDelete(hasBuffer: bool, bufferSize: nat, target: int)
    | CallNormalize(hash: Hash)

  /** What the three methods require of the image: no wrapping sums, and a table that the source's stack can sort. */
  ghost predicate Allowed(st: ImageState, call: Call)
    requires Layout(st)
  {
    match call
    case CallAppend(id, data, allocation, dd) =>
      allocation <= |st.mem| && allocation < U32_LIMIT && NoWrap(st, id, |data|)
    case CallDelete(hasBuffer, bufferSize, target) => DeleteAllowed(st, hasBuffer, target)
    case CallNormalize(hash) => NormalizeAllowed(st, hash, SORT_STACK_SLOTS)
  }

  /** The call, when it is allowed, takes the image st to st', successfully or not: this is what the three methods
      ensure. */
  ghost predicate Step(st: ImageState, call: Call, st': ImageState, rc: Rc)
    requires Layout(st)
  {
    Allowed(st, call) &&
    match call
    case CallAppend(id, data, allocation, dd) => AppendPost(st, st', id, data, allocation, dd, rc)
    case CallDelete(hasBuffer, bufferSize, target) =>
      DeleteOutcome(st, hasBuffer, bufferSize, target) == Outcome(rc, st')
    case CallNormalize(hash) => NormalizePost(st, st', rc, hash)
  }

  /** A run from a laid-out image: each call works on the image that the one before has left. */
  ghost predicate Run(images: seq<ImageState>, calls: seq<Call>, codes: seq<Rc>) {
    && |images| == |calls| + 1 && |codes| == |calls| && Layout(images[0])
    && forall i {:trigger calls[i]} :: 0 <= i < |calls| ==> Layout(images[i]) ==>
      Step(images[i], calls[i], images[i + 1], codes[i])
  }

  // ---- one step

  lemma AppendStepKeeps(st: ImageState, st': ImageState, id: int, data: seq<byte>, allocation: nat, dd: nat, rc: Rc)
    requires Layout(st) && allocation <= |st.mem| && allocation < U32_LIMIT
    requires AppendPost(st, st', id, data, allocation, dd, rc)
    ensures Layout(st') && (Tight(st) ==> Tight(st'))
    ensures st'.(mem := st.mem, secs := st.secs, size := st.size, sorted := st.sorted) == st
  {
    if rc != Ok {
      FailedAppendKeepsImage(st, st', id, data, allocation, dd, rc);
    } else if data != [] {
      AppendKeepsLayout(st, id, data, allocation, dd);
    }
  }

  lemma DeleteStepKeeps(st: ImageState, st': ImageState, hasBuffer: bool, bufferSize: nat, id: int, rc: Rc)
    requires Layout(st) && DeleteOutcome(st, hasBuffer, bufferSize, id) == Outcome(rc, st')
    ensures Layout(st') && (Tight(st) ==> Tight(st'))
    ensures st'.(mem := st.mem, secs := st.secs, size := st.size, sorted := st.sorted) == st
  {
    DeleteKeepsLayout(st, hasBuffer, bufferSize, id);
    if rc == Ok && st' != st {
      DeleteRepacks(st, hasBuffer, bufferSize, id);
    }
  }

  /** The layout invariant, the tight end, and the header fields that no operation writes, survive every call. */
  lemma StepKeeps(st: ImageState, call: Call, st': ImageState, rc: Rc)
    requires Layout(st) && Step(st, call, st', rc)
    ensures Layout(st') && (Tight(st) ==> Tight(st'))
    ensures st'.magic == st.magic && st'.version == st.version && st'.link == st.link
  {
    match call {
      case CallAppend(id, data, allocation, dd) =>
        AppendStepKeeps(st, st', id, data, allocation, dd, rc);
      case CallDelete(hasBuffer, bufferSize, target) =>
        DeleteStepKeeps(st, st', hasBuffer, bufferSize, target, rc);
      case CallNormalize(hash) =>
        NormalizeKeepsLayout(st, st', rc, hash);
    }
  }

  // ---- sections on multiples of 8

  /** Every section starts on a multiple of 8. */
  ghost predicate AllEightAligned(secs: seq<Section>) {
    forall i {:trigger secs[i]} :: 0 <= i < |secs| && secs[i].size != 0 ==> Mod(secs[i].offset, FINAL_ALIGNMENT) == 0
  }

  /** Append puts an empty section on a multiple of 8, whatever its alignment. */
  lemma NewSectionOnEight(st: ImageState, id: nat)
    requires Layout(st) && id < SECTIONS && st.secs[id].size == 0
    ensures st.secs[id].alignment > 0 && Mod(AppendStart(st, id), FINAL_ALIGNMENT) == 0
  {
    assert Aligned(st.secs[id]);
    var a, start := st.secs[id].alignment, AppendStart(st, id);
    PaddingBound(st.size, a);
    if a > 8 {
      PowersOfTwo(a);
      PadToIsMultiple(st.size, a);
      ModIsRemainder(start, a);
      ModIsRemainder(start, FINAL_ALIGNMENT);
      assert a == 16 || a == 32 || a == 64 || a == 128;
      EighthsDivide(start, a);
    }
  }

  lemma AppendedOnEight(st: ImageState, id: nat, data: seq<byte>, allocation: nat, dd: nat)
    requires CanAppend(st, id, data, allocation) && AllEightAligned(st.secs)
    ensures st.secs[id].size == 0 ==> st.secs[id].alignment > 0
    ensures AppendStart(st, id) + |data| <= |st.mem| && AllEightAligned(Appended(st, id, data, dd).secs)
  {
    AppendFits(st, id, |data|, allocation);
    if st.secs[id].size == 0 {
      NewSectionOnEight(st, id);
    }
  }

  lemma {:induction false} ReappendOnEight(st: ImageState, saved: ImageState, order: seq<nat>)
    requires Layout(st) && Lends(saved, order) && |st.mem| == |saved.mem| && AllEightAligned(st.secs)
    ensures Reappend(st, saved, order).rc == Ok ==> AllEightAligned(Reappend(st, saved, order).image.secs)
    decreases |order|
  {
    if order != [] {
      var k := order[|order| - 1];
      if AppendFrom(st, saved, k).rc == Ok {
        AppendFromWorks(st, saved, k);
        AppendedOnEight(st, k, Body(saved, k), saved.size, saved.secs[k].ddSupport);
        ReappendOnEight(AppendFrom(st, saved, k).image, saved, order[..|order| - 1]);
      }
    }
  }

  lemma RebuiltOnEight(st: ImageState, id: nat)
    requires Deletable(st, id) && AllEightAligned(st.secs) && Rebuilt(st, id).rc == Ok
    ensures AllEightAligned(Rebuilt(st, id).image.secs)
  {
    ReadyToRebuild(st, id);
    ReappendOnEight(PopTo(st, id).image, st, PopTo(st, id).order);
  }

  lemma DeletedOnEight(st: ImageState, hasBuffer: bool, bufferSize: nat, id: int)
    requires Layout(st) && AllEightAligned(st.secs)
    ensures AllEightAligned(DeleteOutcome(st, hasBuffer, bufferSize, id).image.secs)
  {
    var o := DeleteOutcome(st, hasBuffer, bufferSize, id);
    if o.rc == Ok && o.image != st && Final(st.secs) != id {
      RebuiltOnEight(st, id);
    }
  }

  /** So once all sections start on multiples of 8 they always do. */
  lemma StepKeepsEight(st: ImageState, call: Call, st': ImageState, rc: Rc)
    requires Layout(st) && Step(st, call, st', rc) && AllEightAligned(st.secs)
    ensures AllEightAligned(st'.secs)
  {
    match call {
      case CallAppend(id, data, allocation, dd) =>
        if rc == Ok && data != [] {
          AppendedOnEight(st, id, data, allocation, dd);
        }
      case CallDelete(hasBuffer, bufferSize, target) =>
        DeletedOnEight(st, hasBuffer, bufferSize, target);
      case CallNormalize(hash) =>
    }
  }

  // ---- whole runs

  /** The layout invariant holds in every image of every run, and the image always ends where its highest
      section ends, rounded up to 8. */
  lemma {:induction false} RunKeepsLayout(images: seq<ImageState>, calls: seq<Call>, codes: seq<Rc>, i: nat)
    requires Run(images, calls, codes) && i <= |calls|
    ensures Layout(images[i]) && (Tight(images[0]) ==> Tight(images[i]))
    ensures images[i].magic == images[0].magic && images[i].version == images[0].version
      && images[i].link == images[0].link
    ensures AllEightAligned(images[0].secs) ==> AllEightAligned(images[i].secs)
  {
    if i > 0 {
      RunKeepsLayout(images, calls, codes, i - 1);
      var call := calls[i - 1];
      StepKeeps(images[i - 1], call, images[i], codes[i - 1]);
      if AllEightAligned(images[0].secs) {
        StepKeepsEight(images[i - 1], call, images[i], codes[i - 1]);
      }
    }
  }

  /** In every run the checks of p9_xip_validate on the sections keep passing, and all bounds and alignment checks
      do if and only if link address and size have not come to wrap the 32-bit address space. */
  lemma RunKeepsValidating(images: seq<ImageState>, calls: seq<Call>, codes: seq<Rc>, i: nat)
    requires Run(images, calls, codes) && i <= |calls| && QuickCheck(images[0], false) == Ok
    ensures FieldsFit(images[i]) && SectionsRc(images[i], 0) == Ok
    ensures BoundsRc(images[i], images[i].size) == Ok <==>
      images[i].link % U32_LIMIT + images[i].size < U32_LIMIT
  {
    RunKeepsLayout(images, calls, codes, i);
    LayoutPassesBounds(images[i]);
  }

  /** In every run from an image whose sections start on multiples of 8, no delete overflows. */
  lemma RunDeletesFit(images: seq<ImageState>, calls: seq<Call>, codes: seq<Rc>, i: nat)
    requires Run(images, calls, codes) && i < |calls| && AllEightAligned(images[0].secs)
    requires calls[i].CallDelete? && calls[i].hasBuffer && calls[i].bufferSize >= images[i].size
    ensures codes[i] != WouldOverflow
  {
    RunKeepsLayout(images, calls, codes, i);
    var st, id := images[i], calls[i].target;
    assert Step(st, calls[i], images[i + 1], codes[i]);
    if 0 < id < SECTIONS && st.secs[id].size != 0 && QuickCheck(st, true) == Ok {
      DeleteFitsWhenAligned(st, calls[i].bufferSize, id);
    }
  }

  // ---- lookups over runs of deletes

  /** Some delete of section id takes st to r. */
  ghost predicate DeletesTo(st: ImageState, id: nat, r: ImageState)
    requires Layout(st)
  {
    exists hasBuffer, bufferSize :: DeleteOutcome(st, hasBuffer, bufferSize, id) == Outcome(Ok, r)
  }

  predicate Relocatable(id: nat) {
    id < SECTIONS && id != HEADER && id != TOC && id != STRINGS
  }

  /** Successful deletes of these sections, none of them .header, .toc or .strings, one after the other. */
  ghost predicate DeleteRun(images: seq<ImageState>, ids: seq<nat>) {
    && |images| == |ids| + 1 && Searchable(images[0])
    && forall i {:trigger ids[i]} :: 0 <= i < |ids| ==>
         Relocatable(ids[i]) && (Layout(images[i]) ==> DeletesTo(images[i], ids[i], images[i + 1]))
  }

  /** What a lookup gives after the sections `ids` have gone, from what it gave before. */
  ghost predicate LookupAfterDeletes(st: ImageState, before: Result<Item>, ids: seq<nat>, r: ImageState,
                                     after: Result<Item>)
    requires Layout(st) && Layout(r)
  {
    match before
    case Failure(rc) => after == Failure(rc)
    case Success(item) =>
      && item.toc.Some? && item.toc.value < |Toc(st)|
      && var section := Toc(st)[item.toc.value].section as int;
         section < SECTIONS &&
         if section in ids then after == Failure(DataNotPresent)
         else after.Success? && SameItem(st, item, r, after.value, section)
  }

  lemma ItemStaysSame(st: ImageState, r: ImageState, r': ImageState, before: Item, item: Item, item': Item,
                      section: nat)
    requires section < |st.secs| == |r.secs| == |r'.secs|
    requires SameItem(st, before, r, item, section) && SameItem(r, item, r', item', section)
    ensures SameItem(st, before, r', item', section)
  {
  }

  lemma LookupChain(st: ImageState, ids: seq<nat>, r: ImageState, id: nat, r': ImageState,
                    before: Result<Item>, middle: Result<Item>, after: Result<Item>)
    requires Layout(st) && Layout(r) && Layout(r') && Toc(r) == Toc(st)
    requires LookupAfterDeletes(st, before, ids, r, middle) && LookupAfterDelete(r, middle, id, r', after)
    ensures LookupAfterDeletes(st, before, ids + [id], r', after)
  {
    if before.Success? && middle.Success? {
      var section := Toc(st)[before.value.toc.value].section as int;
      assert middle.value.toc == before.value.toc;
      if section != id {
        ItemStaysSame(st, r, r', before.value, middle.value, after.value, section);
      }
    }
  }

  /** A lookup before any delete. */
  lemma LookupStart(st: ImageState, key: seq<byte>, hash: Hash)
    requires Searchable(st)
    ensures LookupAfterDeletes(st, Find(st, key, hash), [], st, Find(st, key, hash))
  {
    var k := SearchIndex(st, key);
    if k != -1 {
      var e := Toc(st)[k];
      if e.section as int < SECTIONS {
        assert InImage(st.secs[e.section as int], st.size);
      }
    }
  }

  /** One more delete. */
  lemma DeleteLookup(st: ImageState, r: ImageState, id: nat, key: seq<byte>, hash: Hash)
    requires Searchable(st) && Relocatable(id) && DeletesTo(st, id, r)
    ensures Searchable(r) && Toc(r) == Toc(st)
    ensures LookupAfterDelete(st, Find(st, key, hash), id, r, Find(r, key, hash))
  {
    var hasBuffer, bufferSize :| DeleteOutcome(st, hasBuffer, bufferSize, id) == Outcome(Ok, r);
    if st.secs[id].size == 0 {
      LookupStart(st, key, hash);
      assert r == st;
    } else {
      RelocationInvisible(st, hasBuffer, bufferSize, id, key, hash);
      DeleteRepacks(st, hasBuffer, bufferSize, id);
      RepackedSame(st, id, r, TOC);
      TocKept(st, r);
    }
  }

  /** From st0 the deletes of these sections have led to st, and every lookup of the key says so. */
  ghost predicate Survived(st0: ImageState, ids: seq<nat>, st: ImageState, key: seq<byte>, hash: Hash) {
    && Searchable(st0) && Searchable(st) && Toc(st) == Toc(st0)
    && LookupAfterDeletes(st0, Find(st0, key, hash), ids, st, Find(st, key, hash))
  }

  lemma SurviveStart(st: ImageState, key: seq<byte>, hash: Hash)
    requires Searchable(st)
    ensures Survived(st, [], st, key, hash)
  {
    LookupStart(st, key, hash);
  }

  lemma SurviveStep(st0: ImageState, ids: seq<nat>, st: ImageState, id: nat, r: ImageState, key: seq<byte>, hash: Hash)
    requires Survived(st0, ids, st, key, hash) && Relocatable(id) && DeletesTo(st, id, r)
    ensures Survived(st0, ids + [id], r, key, hash)
  {
    DeleteLookup(st, r, id, key, hash);
    LookupChain(st0, ids, st, id, r, Find(st0, key, hash), Find(st, key, hash), Find(r, key, hash));
  }

  lemma PrefixGrows(s: seq<nat>, n: nat)
    requires n < |s|
    ensures s[..n + 1] == s[..n] + [s[n]]
  {
  }

  /** However many sections are deleted and whatever moves on the way, every lookup finds what it found at
      first, in its section, with the same bytes, unless that section is one of the deleted ones. */
  lemma {:induction false} LookupsSurviveDeletes(images: seq<ImageState>, ids: seq<nat>, n: nat, key: seq<byte>,
                                                 hash: Hash)
    requires DeleteRun(images, ids) && n <= |ids|
    ensures Survived(images[0], ids[..n], images[n], key, hash)
  {
    if n == 0 {
      SurviveStart(images[0], key, hash);
    } else {
      LookupsSurviveDeletes(images, ids, n - 1, key, hash);
      assert Relocatable(ids[n - 1]) && DeletesTo(images[n - 1], ids[n - 1], images[n]);
      SurviveStep(images[0], ids[..n - 1], images[n - 1], ids[n - 1], images[n], key, hash);
      PrefixGrows(ids, n - 1);
    }
  }

  // ---- sections and lookups over all runs

  /** The first n calls append and delete only. */
  predicate NoNormalization(calls: seq<Call>, n: nat)
    requires n <= |calls|
  {
    forall i :: 0 <= i < n ==> !calls[i].CallNormalize?
  }

  /** The sections that the call has written to; a normalization may have, even when it fails. */
  function TouchedBy(call: Call, rc: Rc): set<int> {
    match call
    case CallAppend(id, data, allocation, dd) => if rc == Ok && data != [] then {id} else {}
    case CallDelete(hasBuffer, bufferSize, target) => if rc == Ok then {target} else {}
    case CallNormalize(hash) => {TOC, FIXED_TOC}
  }

  /** The sections that the call has deleted or rewritten. */
  function GoneBy(call: Call, rc: Rc): set<int> {
    if call.CallAppend? then {} else TouchedBy(call, rc)
  }

  /** The sections that the first n calls have written to or deleted. */
  function Touched(calls: seq<Call>, codes: seq<Rc>, n: nat): set<int>
    requires n <= |calls| == |codes|
  {
    if n == 0 then {} else Touched(calls, codes, n - 1) + TouchedBy(calls[n - 1], codes[n - 1])
  }

  /** The sections that they have deleted or rewritten. */
  function Gone(calls: seq<Call>, codes: seq<Rc>, n: nat): set<int>
    requires n <= |calls| == |codes|
  {
    if n == 0 then {} else Gone(calls, codes, n - 1) + GoneBy(calls[n - 1], codes[n - 1])
  }

  predicate Absent(st: ImageState, i: nat) {
    i < |st.secs| && st.secs[i].size == 0
  }

  lemma StepCarries(st: ImageState, call: Call, st': ImageState, rc: Rc)
    requires Layout(st) && Step(st, call, st', rc) && !call.CallNormalize?
    ensures Carries(st, TouchedBy(call, rc), GoneBy(call, rc), st')
  {
    match call {
      case CallAppend(id, data, allocation, dd) =>
        AppendCarries(st, st', id, data, allocation, dd, rc);
      case CallDelete(hasBuffer, bufferSize, target) =>
        DeleteCarries(st, hasBuffer, bufferSize, target);
    }
  }

  lemma StepKeepsSections(st: ImageState, call: Call, st': ImageState, rc: Rc)
    requires Layout(st) && Step(st, call, st', rc)
    ensures KeepsSections(st, TouchedBy(call, rc), GoneBy(call, rc), st')
  {
    if call.CallNormalize? {
      NormalizeKeepsSections(st, st', rc, call.hash);
    } else {
      StepCarries(st, call, st', rc);
    }
  }

  /** Over any run, failed calls included, a section keeps its bytes unless it has been touched, and begins with
      them unless it has been deleted or rewritten. */
  lemma {:induction false} RunKeepsSections(images: seq<ImageState>, calls: seq<Call>, codes: seq<Rc>, n: nat)
    requires Run(images, calls, codes) && n <= |calls|
    ensures KeepsSections(images[0], Touched(calls, codes, n), Gone(calls, codes, n), images[n])
  {
    if n == 0 {
      SameCarries(images[0], {});
    } else {
      RunKeepsSections(images, calls, codes, n - 1);
      StepKeepsSections(images[n - 1], calls[n - 1], images[n], codes[n - 1]);
      KeepsChain(images[0], Touched(calls, codes, n - 1), Gone(calls, codes, n - 1), images[n - 1],
        TouchedBy(calls[n - 1], codes[n - 1]), GoneBy(calls[n - 1], codes[n - 1]), images[n]);
    }
  }

  /** Without normalizations the flags stay too, but for that of a sorted TOC. */
  lemma {:induction false} RunCarries(images: seq<ImageState>, calls: seq<Call>, codes: seq<Rc>, n: nat)
    requires Run(images, calls, codes) && n <= |calls| && NoNormalization(calls, n)
    ensures Carries(images[0], Touched(calls, codes, n), Gone(calls, codes, n), images[n])
  {
    RunKeepsSections(images, calls, codes, n);
    if n > 0 {
      RunCarries(images, calls, codes, n - 1);
      StepCarries(images[n - 1], calls[n - 1], images[n], codes[n - 1]);
    }
  }

  /** Lookups survive every run of appends and deletes that leaves .toc and .strings alone: each search ends at
      the same entry, and an item whose section has not been deleted is found there, with its old bytes. */
  lemma LookupsSurvive(images: seq<ImageState>, calls: seq<Call>, codes: seq<Rc>, n: nat, key: seq<byte>, hash: Hash)
    requires Run(images, calls, codes) && n <= |calls| && NoNormalization(calls, n) && Searchable(images[0])
    requires TOC !in Touched(calls, codes, n) && STRINGS !in Touched(calls, codes, n)
    ensures Searchable(images[n]) && LookupCarried(images[0], Gone(calls, codes, n), images[n], key, hash)
  {
    RunCarries(images, calls, codes, n);
    LookupCarries(images[0], Touched(calls, codes, n), Gone(calls, codes, n), images[n], key, hash);
  }

  /** The call, if it is not a normalization, leaves .toc and .strings alone. */
  predicate SparesTables(call: Call, rc: Rc) {
    call.CallNormalize? || (TOC !in TouchedBy(call, rc) && STRINGS !in TouchedBy(call, rc))
  }

  /** So do the first n calls. */
  predicate TablesSpared(calls: seq<Call>, codes: seq<Rc>, n: nat)
    requires n <= |calls| == |codes|
  {
    forall i {:trigger calls[i]} :: 0 <= i < n ==> SparesTables(calls[i], codes[i])
  }

  lemma {:induction false} SparedUntouched(calls: seq<Call>, codes: seq<Rc>, n: nat)
    requires n <= |calls| == |codes| && TablesSpared(calls, codes, n) && NoNormalization(calls, n)
    ensures TOC !in Touched(calls, codes, n) && STRINGS !in Touched(calls, codes, n)
  {
    if n > 0 {
      SparedUntouched(calls, codes, n - 1);
      assert SparesTables(calls[n - 1], codes[n - 1]);
    }
  }

  lemma CarriedFollows(st0: ImageState, st: ImageState, touched: set<int>, gone: set<int>, r: ImageState,
                       key: seq<byte>)
    requires Follows(st0, st, key) && Carries(st, touched, gone, r) && TOC !in touched && STRINGS !in touched
    ensures Follows(st0, r, key)
  {
    SearchableCarried(st, touched, gone, r);
    CarriedIs(st, touched, gone, r, TOC);
    CarriedIs(st, touched, gone, r, STRINGS);
    SearchKept(st, r, key);
    NamesOfEntries(st, r);
    TableChain(st0, st, r);
  }

  lemma RenormalizedFollows(st0: ImageState, st: ImageState, r: ImageState, rc: Rc, key: seq<byte>, hash: Hash)
    requires Follows(st0, st, key) && Distinct(Names(st0)) && NormalizePost(st, r, rc, hash)
    ensures Follows(st0, r, key)
  {
    RenormalizedSearchable(st, r, rc, hash);
    RenormalizationInvisible(st, r, rc, key, hash);
    TableChain(st0, st, r);
  }

  lemma StepFollows(st0: ImageState, st: ImageState, call: Call, r: ImageState, rc: Rc, key: seq<byte>)
    requires Follows(st0, st, key) && Step(st, call, r, rc) && SparesTables(call, rc)
    requires call.CallNormalize? ==> Distinct(Names(st0))
    ensures Follows(st0, r, key)
  {
    if call.CallNormalize? {
      RenormalizedFollows(st0, st, r, rc, key, call.hash);
    } else {
      StepCarries(st, call, r, rc);
      CarriedFollows(st0, st, TouchedBy(call, rc), GoneBy(call, rc), r, key);
    }
  }

  lemma {:induction false} RunFollows(images: seq<ImageState>, calls: seq<Call>, codes: seq<Rc>, n: nat, key: seq<byte>)
    requires Run(images, calls, codes) && n <= |calls| && TablesSpared(calls, codes, n) && Searchable(images[0])
    requires NoNormalization(calls, n) || Distinct(Names(images[0]))
    ensures Follows(images[0], images[n], key)
  {
    if n > 0 {
      RunFollows(images, calls, codes, n - 1, key);
      assert SparesTables(calls[n - 1], codes[n - 1]);
      StepFollows(images[0], images[n - 1], calls[n - 1], images[n], codes[n - 1], key);
    }
  }

  /** Lookups survive every run of appends, deletes and normalizations that otherwise leaves .toc and .strings alone,
      from an image with distinct names if it normalizes: each search ends at the same entry, and an item whose
      section has not been deleted is found there, with its old bytes. */
  lemma LookupsFollow(images: seq<ImageState>, calls: seq<Call>, codes: seq<Rc>, n: nat, key: seq<byte>, hash: Hash)
    requires Run(images, calls, codes) && n <= |calls| && TablesSpared(calls, codes, n) && Searchable(images[0])
    requires NoNormalization(calls, n) || Distinct(Names(images[0]))
    ensures Searchable(images[n]) && LookupFollowed(images[0], Gone(calls, codes, n), images[n], key, hash)
  {
    RunFollows(images, calls, codes, n, key);
    RunKeepsSections(images, calls, codes, n);
    FollowedLookup(images[0], Touched(calls, codes, n), Gone(calls, codes, n), images[n], key, hash);
  }

  /** In such a run every normalization succeeds. */
  lemma NormalizationsSucceed(images: seq<ImageState>, calls: seq<Call>, codes: seq<Rc>, n: nat)
    requires Run(images, calls, codes) && n < |calls| && TablesSpared(calls, codes, n) && Searchable(images[0])
    requires Distinct(Names(images[0])) && calls[n].CallNormalize?
    ensures codes[n] == Ok && Searchable(images[n + 1]) && images[n + 1].sorted
  {
    RunFollows(images, calls, codes, n, []);
    assert Step(images[n], calls[n], images[n + 1], codes[n]);
    RenormalizedSearchable(images[n], images[n + 1], codes[n], calls[n].hash);
  }
}
