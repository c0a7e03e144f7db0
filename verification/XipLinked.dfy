/** Which linked images p9_xip_normalize accepts, over the addresses in their table and the section table alone. */
module XipLinked {
  import opened Bytes
  import opened CStrings
  import opened XipTypes
  import opened XipLayout
  import opened XipToc
  import opened XipFind
  import opened XipAddress
  import opened XipNormalize
  import opened XipNormalizeSteps

  // ---- what the addresses of a linked entry must satisfy

  /** The entry's name lies in .strings. */
  predicate NamePlaced(st: ImageState, e: TocEntry) {
    InSection(st, STRINGS, FullAddress(st, e.id))
  }

  /** The entry's data lies in .fixed. */
  predicate OfFixed(st: ImageState, e: TocEntry) {
    InSection(st, FIXED, FullAddress(st, e.data))
  }

  /** How far it lies in .fixed. */
  function FixedOffset(st: ImageState, e: TocEntry): int
    requires |st.secs| == SECTIONS
  {
    FullAddress(st, e.data) - st.link - st.secs[FIXED].offset
  }

  /** Both addresses lie where they should, and what lies in .fixed is within reach of 16 bits. */
  predicate EntryFine(st: ImageState, e: TocEntry)
    requires |st.secs| == SECTIONS
  {
    NamePlaced(st, e) && Placed(st, FullAddress(st, e.data)) && (OfFixed(st, e) ==> FixedOffset(st, e) < 0x1_0000)
  }

  /** Which of the first k entries have their data in .fixed. */
  ghost function FixedItems(st: ImageState, t: seq<TocEntry>, k: nat): set<nat>
    requires k <= |t|
  {
    set i: nat | i < k && OfFixed(st, t[i])
  }

  /** The name at its linked address. */
  function LinkedName(st: ImageState, e: TocEntry): seq<byte>
    requires FullAddress(st, e.id) >= st.link
  {
    CString(st.mem, FullAddress(st, e.id) - st.link)
  }

  ghost predicate AllFine(st: ImageState, t: seq<TocEntry>)
    requires |st.secs| == SECTIONS
  {
    forall k {:trigger EntryFine(st, t[k])} :: 0 <= k < |t| ==> EntryFine(st, t[k])
  }

  /** No two items of .fixed have names with the same hash. */
  ghost predicate HashesDiffer(st: ImageState, t: seq<TocEntry>, hash: Hash)
    requires |st.secs| == SECTIONS && AllFine(st, t)
  {
    forall i, j :: 0 <= i < j < |t| && OfFixed(st, t[i]) && OfFixed(st, t[j]) ==> !SameHash(st, t[i], t[j], hash)
  }

  ghost predicate SameHash(st: ImageState, e: TocEntry, e': TocEntry, hash: Hash) {
    && FullAddress(st, e.id) >= st.link && FullAddress(st, e'.id) >= st.link
    && hash(LinkedName(st, e)) == hash(LinkedName(st, e'))
  }

  // ---- one entry

  /** Normalizing an entry takes both addresses apart. */
  lemma NormEntryIs(st: ImageState, e: TocEntry)
    requires Layout(st)
    ensures NormEntry(st, e).Success? <==> NamePlaced(st, e) && Placed(st, FullAddress(st, e.data))
    ensures NormEntry(st, e).Success? ==>
      var n := Normed(st, e);
      && n.id == FullAddress(st, e.id) - st.link - st.secs[STRINGS].offset && (InFixed(n) <==> OfFixed(st, e))
      && (OfFixed(st, e) ==> n.data == FixedOffset(st, e))
  {
    PlaceIs(st, FullAddress(st, e.id));
    PlaceIs(st, FullAddress(st, e.data));
  }

  /** The normalized entry: offsets from the starts of .strings and of the section of the data, with the number of the
      latter; type and number of elements stay, and the padding is zero. */
  lemma NormalizedEntryIs(st: ImageState, e: TocEntry, i: nat)
    requires Layout(st) && NamePlaced(st, e) && i < SECTIONS && InSection(st, i, FullAddress(st, e.data))
    ensures var n := Normed(st, e);
      && n.id == FullAddress(st, e.id) - st.link - st.secs[STRINGS].offset
      && n.data == FullAddress(st, e.data) - st.link - st.secs[i].offset && n.section as int == i
      && n.typ == e.typ && n.elements == e.elements && n.pad == 0
  {
    PlaceIs(st, FullAddress(st, e.id));
    PlaceIs(st, FullAddress(st, e.data));
  }

  /** The record of an item of .fixed. */
  lemma RecordIs(st: ImageState, e: TocEntry, hash: Hash)
    requires Layout(st) && EntryFine(st, e) && OfFixed(st, e)
    ensures FullAddress(st, e.id) >= st.link
    ensures var h := Record(st, Normed(st, e), hash);
      && h.hash == hash(LinkedName(st, e)) && h.offset == FixedOffset(st, e) && h.typ == e.typ
      && h.elements == e.elements
  {
    RecordHash(st, e, hash);
    NormalizedEntryIs(st, e, FIXED);
  }

  lemma NormRcIs(st: ImageState, e: TocEntry, left: nat)
    requires Layout(st)
    ensures NormRc(st, e, left) == Ok <==> EntryFine(st, e) && (OfFixed(st, e) ==> left > 0)
  {
    NormEntryIs(st, e);
  }

  // ---- counting the items of .fixed

  ghost predicate AllPlaced(st: ImageState, t: seq<TocEntry>, k: nat)
    requires k <= |t| && |st.secs| == SECTIONS
  {
    forall i {:trigger EntryFine(st, t[i])} :: 0 <= i < k ==> EntryFine(st, t[i])
  }

  lemma FixedItemsNext(st: ImageState, t: seq<TocEntry>, k: nat)
    requires k < |t|
    ensures |FixedItems(st, t, k + 1)| == |FixedItems(st, t, k)| + if OfFixed(st, t[k]) then 1 else 0
  {
    if OfFixed(st, t[k]) {
      assert FixedItems(st, t, k + 1) == FixedItems(st, t, k) + {k};
    } else {
      assert FixedItems(st, t, k + 1) == FixedItems(st, t, k);
    }
  }

  lemma {:induction false} FixedBeforeCounts(st: ImageState, t: seq<TocEntry>, k: nat)
    requires Layout(st) && k <= |t| && AllPlaced(st, t, k)
    ensures FixedBefore(st, t, k) == |FixedItems(st, t, k)|
  {
    if k > 0 {
      FixedBeforeCounts(st, t, k - 1);
      FixedItemsNext(st, t, k - 1);
      assert EntryFine(st, t[k - 1]);
      NormEntryIs(st, t[k - 1]);
    }
  }

  lemma {:induction false} FixedItemsGrow(st: ImageState, t: seq<TocEntry>, k: nat, n: nat)
    requires k <= n <= |t|
    ensures |FixedItems(st, t, k)| <= |FixedItems(st, t, n)|
    decreases n - k
  {
    if k < n {
      FixedItemsNext(st, t, k);
      FixedItemsGrow(st, t, k + 1, n);
    }
  }

  // ---- the loop

  lemma EntryCodeOkIff(st: ImageState, t: seq<TocEntry>, slots: nat, k: nat)
    requires Layout(st) && k < |t| && AllPlaced(st, t, k)
    ensures EntryCode(st, t, slots, k) == Ok <==>
      EntryFine(st, t[k]) && (OfFixed(st, t[k]) ==> |FixedItems(st, t, k)| < slots)
  {
    FixedBeforeCounts(st, t, k);
    var used := FixedBefore(st, t, k);
    NormRcIs(st, t[k], if used <= slots then slots - used else 0);
  }

  /** The loop runs through, with every record filled, exactly when all entries are fine and there are as many items
      of .fixed as records. */
  lemma LoopOkIff(st: ImageState, t: seq<TocEntry>, slots: nat)
    requires Layout(st)
    ensures TocRc(st, t, slots) == Ok && FixedBefore(st, t, |t|) == slots <==>
      AllFine(st, t) && |FixedItems(st, t, |t|)| == slots
  {
    if AllFine(st, t) {
      FixedBeforeCounts(st, t, |t|);
      if |FixedItems(st, t, |t|)| == slots {
        LoopRunsWhenFine(st, t, slots);
      }
    } else if TocRc(st, t, slots) == Ok {
      TocRcOk(st, t, slots);
      forall k {:trigger EntryFine(st, t[k])} | 0 <= k < |t| ensures EntryFine(st, t[k]) {
        assert Normalizable(st, t[k]);
        NormEntryIs(st, t[k]);
      }
    }
  }

  lemma LoopRunsWhenFine(st: ImageState, t: seq<TocEntry>, slots: nat)
    requires Layout(st) && AllFine(st, t) && |FixedItems(st, t, |t|)| == slots
    ensures TocRc(st, t, slots) == Ok
  {
    var codes := TocCodes(st, t, slots);
    forall k | 0 <= k < |codes| ensures codes[k] == Ok {
      EntryCodeOkIff(st, t, slots, k);
      FixedItemsNext(st, t, k);
      FixedItemsGrow(st, t, k + 1, |t|);
      assert EntryFine(st, t[k]) && codes[k] == EntryCode(st, t, slots, k);
    }
  }

  // ---- the records and their hashes

  lemma {:induction false} RecordPosition(st: ImageState, t: seq<TocEntry>, k: nat, i: nat, hash: Hash)
    requires |st.secs| == SECTIONS && i < k <= |t| && InFixed(Normed(st, t[i]))
    ensures FixedBefore(st, t, i) < FixedBefore(st, t, k)
    ensures RecordsBefore(st, t, k, hash)[FixedBefore(st, t, i)] == Record(st, Normed(st, t[i]), hash)
  {
    if i < k - 1 {
      RecordPosition(st, t, k - 1, i, hash);
    }
  }

  /** Every record is that of an item. */
  lemma {:induction false} RecordOwner(st: ImageState, t: seq<TocEntry>, k: nat, r: nat) returns (i: nat)
    requires |st.secs| == SECTIONS && k <= |t| && r < FixedBefore(st, t, k)
    ensures i < k && InFixed(Normed(st, t[i])) && FixedBefore(st, t, i) == r
  {
    if r < FixedBefore(st, t, k - 1) {
      i := RecordOwner(st, t, k - 1, r);
    } else {
      i := k - 1;
    }
  }

  lemma {:induction false} FixedBeforeGrows(st: ImageState, t: seq<TocEntry>, i: nat, k: nat)
    requires |st.secs| == SECTIONS && i <= k <= |t|
    ensures FixedBefore(st, t, i) <= FixedBefore(st, t, k)
    decreases k - i
  {
    if i < k {
      FixedBeforeGrows(st, t, i, k - 1);
    }
  }

  lemma RecordHash(st: ImageState, e: TocEntry, hash: Hash)
    requires Layout(st) && EntryFine(st, e)
    ensures FullAddress(st, e.id) >= st.link
    ensures Record(st, Normed(st, e), hash).hash == hash(LinkedName(st, e))
  {
    NormEntryIs(st, e);
  }

  lemma HashesDifferIff(st: ImageState, t: seq<TocEntry>, hash: Hash)
    requires Layout(st) && AllFine(st, t)
    ensures !Collision(Records(st, t, hash)) <==> HashesDiffer(st, t, hash)
  {
    var records := Records(st, t, hash);
    if Collision(records) {
      var a, b :| 0 <= a < b < |records| && records[a].hash == records[b].hash;
      var i := RecordOwner(st, t, |t|, a);
      var j := RecordOwner(st, t, |t|, b);
      TwoItems(st, t, i, j, hash);
      if j <= i {
        FixedBeforeGrows(st, t, j, i);
      }
      assert SameHash(st, t[i], t[j], hash);
    }
    forall i, j | 0 <= i < j < |t| && OfFixed(st, t[i]) && OfFixed(st, t[j]) && SameHash(st, t[i], t[j], hash)
      ensures Collision(records)
    {
      assert EntryFine(st, t[i]) && EntryFine(st, t[j]);
      NormEntryIs(st, t[i]);
      NormEntryIs(st, t[j]);
      TwoItems(st, t, i, j, hash);
      assert records[FixedBefore(st, t, i)].hash == records[FixedBefore(st, t, j)].hash;
    }
  }

  lemma TwoItems(st: ImageState, t: seq<TocEntry>, i: nat, j: nat, hash: Hash)
    requires Layout(st) && AllFine(st, t) && i < |t| && j < |t|
    requires InFixed(Normed(st, t[i])) && InFixed(Normed(st, t[j]))
    ensures OfFixed(st, t[i]) && OfFixed(st, t[j])
    ensures var records := Records(st, t, hash);
      && FixedBefore(st, t, i) < |records| && FixedBefore(st, t, j) < |records|
      && (records[FixedBefore(st, t, i)].hash == records[FixedBefore(st, t, j)].hash <==>
            SameHash(st, t[i], t[j], hash))
    ensures i < j ==> FixedBefore(st, t, i) < FixedBefore(st, t, j)
  {
    assert EntryFine(st, t[i]) && EntryFine(st, t[j]);
    NormEntryIs(st, t[i]);
    NormEntryIs(st, t[j]);
    RecordHash(st, t[i], hash);
    RecordHash(st, t[j], hash);
    RecordPosition(st, t, |t|, i, hash);
    RecordPosition(st, t, |t|, j, hash);
    if i < j {
      RecordPosition(st, t, j, i, hash);
    }
  }

  // ---- when a linked image normalizes

  /** A linked image normalizes if and only if every name's address lies in .strings and every data address in some
      section, what lies in .fixed does so below 65536 and is as many items as .fixed_toc has records, and the names
      of these items have different hashes. */
  lemma NormalizeSucceedsIff(st: ImageState, st': ImageState, rc: Rc, hash: Hash)
    requires Layout(st) && QuickCheck(st, false) == Ok && !st.normalized && NormalizePost(st, st', rc, hash)
    ensures rc == Ok <==>
      && AllFine(st, Toc(st)) && |FixedItems(st, Toc(st), |Toc(st)|)| == |FixedToc(st)|
      && HashesDiffer(st, Toc(st), hash)
  {
    LoopOkIff(st, Toc(st), |FixedToc(st)|);
    if AllFine(st, Toc(st)) {
      HashesDifferIff(st, Toc(st), hash);
    }
  }

  // ---- what a normalization that fails reports

  /** The error of an address: outside the image, or in none of its sections. */
  function AddressRc(st: ImageState, address: nat): Rc {
    if !(st.link <= address <= st.link + st.size) then InvalidArgument
    else if !Placed(st, address) then ImageError
    else Ok
  }

  /** The error of entry k of the linked table t, for which there are `slots` records. */
  ghost function LinkedRc(st: ImageState, t: seq<TocEntry>, slots: nat, k: nat): Rc
    requires |st.secs| == SECTIONS && k < |t|
  {
    var id, data := FullAddress(st, t[k].id), FullAddress(st, t[k].data);
    if AddressRc(st, id) != Ok then AddressRc(st, id)
    else if !NamePlaced(st, t[k]) then ImageError
    else if AddressRc(st, data) != Ok then AddressRc(st, data)
    else if !OfFixed(st, t[k]) then Ok
    else if |FixedItems(st, t, k)| >= slots then TocError
    else if FixedOffset(st, t[k]) >= 0x1_0000 then ImageError
    else Ok
  }

  lemma AddressRcIs(st: ImageState, address: nat)
    requires Layout(st)
    ensures var r := Image2Section(st, address);
      (r.Success? <==> Placed(st, address)) && AddressRc(st, address) == if r.Success? then Ok else r.rc
  {
    PlaceIs(st, address);
    forall i: nat | i < SECTIONS && InSection(st, i, address) ensures st.link <= address <= st.link + st.size {
      InSectionIs(st, i, address);
    }
  }

  lemma EntryCodeIs(st: ImageState, t: seq<TocEntry>, slots: nat, k: nat)
    requires Layout(st) && k < |t| && AllPlaced(st, t, k)
    ensures EntryCode(st, t, slots, k) == LinkedRc(st, t, slots, k)
    ensures LinkedRc(st, t, slots, k) == Ok ==> EntryFine(st, t[k])
  {
    AddressRcIs(st, FullAddress(st, t[k].id));
    AddressRcIs(st, FullAddress(st, t[k].data));
    PlaceIs(st, FullAddress(st, t[k].id));
    NormEntryIs(st, t[k]);
    FixedBeforeCounts(st, t, k);
  }

  lemma {:induction false} PlacedWhileOk(st: ImageState, t: seq<TocEntry>, slots: nat, k: nat)
    requires Layout(st) && k <= |t| && forall i :: 0 <= i < k ==> LinkedRc(st, t, slots, i) == Ok
    ensures AllPlaced(st, t, k)
    ensures forall i :: 0 <= i < k ==> EntryCode(st, t, slots, i) == Ok
  {
    if k > 0 {
      PlacedWhileOk(st, t, slots, k - 1);
      EntryCodeIs(st, t, slots, k - 1);
    }
  }

  /** The first entry with an error decides: its code is returned, and the entries before it have been rewritten. */
  lemma FirstErrorDecides(st: ImageState, st': ImageState, rc: Rc, hash: Hash, k: nat)
    requires Layout(st) && QuickCheck(st, false) == Ok && !st.normalized && NormalizePost(st, st', rc, hash)
    requires k < |Toc(st)| && LinkedRc(st, Toc(st), |FixedToc(st)|, k) != Ok
    requires forall i :: 0 <= i < k ==> LinkedRc(st, Toc(st), |FixedToc(st)|, i) == Ok
    ensures rc == LinkedRc(st, Toc(st), |FixedToc(st)|, k) && Stop(st) == k
  {
    PlacedWhileOk(st, Toc(st), |FixedToc(st)|, k);
    EntryCodeIs(st, Toc(st), |FixedToc(st)|, k);
    forall i | 0 <= i < k ensures Codes(st)[i] == Ok {
      CodeAt(st, i);
    }
    LoopStops(st, k);
  }

  /** Without such an entry it is the number of records, and then their hashes. */
  lemma TablesDecide(st: ImageState, st': ImageState, rc: Rc, hash: Hash)
    requires Layout(st) && QuickCheck(st, false) == Ok && !st.normalized && NormalizePost(st, st', rc, hash)
    requires forall i :: 0 <= i < |Toc(st)| ==> LinkedRc(st, Toc(st), |FixedToc(st)|, i) == Ok
    ensures AllFine(st, Toc(st))
    ensures rc ==
      if |FixedItems(st, Toc(st), |Toc(st)|)| != |FixedToc(st)| then TocError
      else if HashesDiffer(st, Toc(st), hash) then Ok
      else HashCollision
  {
    var t, slots := Toc(st), |FixedToc(st)|;
    PlacedWhileOk(st, t, slots, |t|);
    assert AllFine(st, t);
    FixedBeforeCounts(st, t, |t|);
    HashesDifferIff(st, t, hash);
    forall k | 0 <= k < |t| ensures TocCodes(st, t, slots)[k] == Ok {
      assert TocCodes(st, t, slots)[k] == EntryCode(st, t, slots, k);
    }
  }

  /** An image that fails the header check reports that, and one that is normalized already succeeds. */
  lemma HeaderDecides(st: ImageState, st': ImageState, rc: Rc, hash: Hash)
    requires Layout(st) && NormalizePost(st, st', rc, hash)
    ensures QuickCheck(st, false) != Ok ==> rc == QuickCheck(st, false) && st' == st.(normalized := false)
    ensures QuickCheck(st, true) == Ok ==> rc == Ok
  {
  }
}
