/** The outcome of p9_xip_delete_section, and what every delete keeps. */
module XipDeleteLaws {
  import opened XipTypes
  import opened XipLayout
  import opened XipAppend
  import opened XipDelete
  import opened XipRepack
  import opened XipRepackFits

  /** Everything the rebuild needs is in place once the sections above the target have been popped. */
  lemma ReadyToRebuild(st: ImageState, id: nat)
    requires Deletable(st, id)
    ensures var p := PopTo(st, id);
      && Popped(st, id, p.image)
      && Rebuilding(st, id, st.secs[id].offset, p.image)
      && Pending(st.secs, id, st.secs[id].offset, p.order)
      && Lends(st, p.order)
  {
    var p := PopTo(st, id);
    PopToPops(st, id);
    PoppedRebuilding(st, id, p.image);
    TopDownPending(st.secs, id, p.order);
    PendingLends(st, id, st.secs[id].offset, p.order);
  }

  ghost function Rebuilt(st: ImageState, id: nat): Outcome
    requires Deletable(st, id)
  {
    ReadyToRebuild(st, id);
    Reappend(PopTo(st, id).image, st, PopTo(st, id).order)
  }

  /** Return code and image after a delete, by the checks of the source in their order; on any error the
      image is the one passed in. */
  ghost function DeleteOutcome(st: ImageState, hasBuffer: bool, bufferSize: nat, id: int): (o: Outcome)
    requires Layout(st)
    ensures o.rc != Ok ==> o.image == st
  {
    if hasBuffer && bufferSize < st.size then Outcome(WouldOverflow, st)
    else if id == HEADER then Outcome(SectionError, st)
    else if QuickCheck(st, true) != Ok then Outcome(QuickCheck(st, true), st)
    else if !(0 <= id < SECTIONS) then Outcome(InvalidArgument, st)
    else if st.secs[id].size == 0 then Outcome(Ok, st)
    else if Final(st.secs) == id then Outcome(Ok, WithoutLast(st, id))
    else if !hasBuffer then Outcome(NullBuffer, st)
    else
      var o := Rebuilt(st, id);
      if o.rc == Ok then o else Outcome(o.rc, st)
  }

  /** Deleting the final section is the rebuild with nothing to append. */
  lemma FinalRebuilt(st: ImageState, id: nat)
    requires Deletable(st, id) && Final(st.secs) == id
    ensures Rebuilt(st, id) == Outcome(Ok, WithoutLast(st, id))
  {
    ReadyToRebuild(st, id);
  }

  lemma RebuiltRepacks(st: ImageState, id: nat)
    requires Deletable(st, id)
    ensures Rebuilt(st, id).rc == Ok ==>
      Repacked(st, id, Rebuilt(st, id).image) && Rebuilt(st, id).image.size <= st.size
  {
    ReadyToRebuild(st, id);
    ReappendRepacks(st, id, st.secs[id].offset, PopTo(st, id).image, PopTo(st, id).order);
  }

  /** A successful delete of a present section leaves exactly the other sections, in the same order, each
      with its bytes; the image never grows and ends at its highest section. */
  lemma DeleteRepacks(st: ImageState, hasBuffer: bool, bufferSize: nat, id: int)
    requires Layout(st) && 0 <= id < SECTIONS && st.secs[id].size != 0
    requires DeleteOutcome(st, hasBuffer, bufferSize, id).rc == Ok
    ensures var r := DeleteOutcome(st, hasBuffer, bufferSize, id).image;
      Repacked(st, id, r) && r.size <= st.size
  {
    assert Deletable(st, id);
    RebuiltRepacks(st, id);
    if Final(st.secs) == id {
      FinalRebuilt(st, id);
    }
  }

  /** The layout invariant survives every delete, whether it succeeds or not. */
  lemma DeleteKeepsLayout(st: ImageState, hasBuffer: bool, bufferSize: nat, id: int)
    requires Layout(st)
    ensures Layout(DeleteOutcome(st, hasBuffer, bufferSize, id).image)
    ensures DeleteOutcome(st, hasBuffer, bufferSize, id).image == st
      || Tight(DeleteOutcome(st, hasBuffer, bufferSize, id).image)
  {
    var o := DeleteOutcome(st, hasBuffer, bufferSize, id);
    if o.rc == Ok && o.image != st {
      DeleteRepacks(st, hasBuffer, bufferSize, id);
    }
  }

  // ---- the answers that need no rebuild

  /** The order of the checks, and what each reports; the image stays. */
  lemma DeleteRefusals(st: ImageState, hasBuffer: bool, bufferSize: nat, id: int)
    requires Layout(st)
    ensures var o := DeleteOutcome(st, hasBuffer, bufferSize, id);
      && (hasBuffer && bufferSize < st.size ==> o == Outcome(WouldOverflow, st))
      && ((hasBuffer ==> bufferSize >= st.size) && id == HEADER ==> o == Outcome(SectionError, st))
      && ((hasBuffer ==> bufferSize >= st.size) && id != HEADER && QuickCheck(st, true) != Ok ==>
            o == Outcome(QuickCheck(st, true), st))
      && ((hasBuffer ==> bufferSize >= st.size) && QuickCheck(st, true) == Ok && !(0 <= id < SECTIONS) ==>
            o == Outcome(InvalidArgument, st))
  {
  }

  /** Once those are passed: an empty section is deleted without a change; the highest one without a rebuild, so that
      no buffer is needed; and one with others above it not without a buffer. */
  lemma DeleteWithoutRebuild(st: ImageState, hasBuffer: bool, bufferSize: nat, id: nat)
    requires Layout(st) && QuickCheck(st, true) == Ok && 0 < id < SECTIONS && (hasBuffer ==> bufferSize >= st.size)
    ensures var o := DeleteOutcome(st, hasBuffer, bufferSize, id);
      && (st.secs[id].size == 0 ==> o == Outcome(Ok, st))
      && (st.secs[id].size != 0 && OnTop(st.secs, id) ==> o.rc == Ok && DeletedTop(st, id, o.image))
      && (!OnTop(st.secs, id) && !hasBuffer ==> o == Outcome(NullBuffer, st))
  {
    if st.secs[id].size != 0 {
      FinalIffOnTop(st.secs, id);
      if Final(st.secs) == id {
        TopDeleted(st, id);
      }
    }
  }

  /** The image without its highest section: nothing else moves, and it ends where the highest of the others does. */
  ghost predicate DeletedTop(st: ImageState, id: nat, r: ImageState)
    requires id < |st.secs|
  {
    && r == st.(secs := st.secs[id := Section(0, 0, st.secs[id].alignment, 0)], size := r.size)
    && r.size == FinalSize(EndBelow(st.secs, id, |st.secs|))
  }

  lemma TopDeleted(st: ImageState, id: nat)
    requires Deletable(st, id) && Final(st.secs) == id
    ensures DeletedTop(st, id, WithoutLast(st, id))
  {
    PopToPops(st, id);
    PoppedSize(st, id, PopTo(st, id).image);
  }

  /** Every successful delete of a section that was there leaves its entry empty but for the alignment, and all
      other entries with all but their offsets. */
  lemma DeletedEntries(st: ImageState, hasBuffer: bool, bufferSize: nat, id: nat, i: nat)
    requires Layout(st) && id < SECTIONS && st.secs[id].size != 0 && i < SECTIONS
    requires DeleteOutcome(st, hasBuffer, bufferSize, id).rc == Ok
    ensures var r := DeleteOutcome(st, hasBuffer, bufferSize, id).image;
      && |r.secs| == SECTIONS && r == st.(mem := r.mem, secs := r.secs, size := r.size, sorted := r.sorted)
      && (i == id ==> r.secs[i] == Section(0, 0, st.secs[i].alignment, 0))
      && (i != id ==> r.secs[i] == Section(r.secs[i].offset, st.secs[i].size, st.secs[i].alignment,
                                           st.secs[i].ddSupport))
  {
    DeleteRepacks(st, hasBuffer, bufferSize, id);
    assert Kept(st, id, DeleteOutcome(st, hasBuffer, bufferSize, id).image, i);
  }

  // ---- when a delete succeeds

  predicate Below(secs: seq<Section>, id: nat, i: nat)
    requires id < |secs|
  {
    i < |secs| && secs[i].size != 0 && secs[i].offset < secs[id].offset
  }

  /** The highest end of a section among the first n that starts below section id, or 0. */
  function EndBelow(secs: seq<Section>, id: nat, n: nat): (end: nat)
    requires id < |secs| && n <= |secs|
    ensures forall i :: 0 <= i < n && Below(secs, id, i) ==> SectionEnd(secs[i]) <= end
    ensures end == 0 || exists i :: 0 <= i < n && Below(secs, id, i) && SectionEnd(secs[i]) == end
  {
    if n == 0 then 0
    else
      var end := EndBelow(secs, id, n - 1);
      if Below(secs, id, n - 1) && SectionEnd(secs[n - 1]) > end then SectionEnd(secs[n - 1]) else end
  }

  lemma EndBelowIs(secs: seq<Section>, id: nat, f: nat)
    requires id < |secs| && Below(secs, id, f)
    requires forall i :: 0 <= i < |secs| && Below(secs, id, i) ==> SectionEnd(secs[i]) <= SectionEnd(secs[f])
    ensures EndBelow(secs, id, |secs|) == SectionEnd(secs[f])
  {
  }

  /** What is left below the target, with its end rounded up to 8. */
  lemma PoppedSize(st: ImageState, id: nat, p: ImageState)
    requires Deletable(st, id) && Popped(st, id, p)
    ensures p.size == FinalSize(EndBelow(st.secs, id, |st.secs|))
  {
    var f := Final(p.secs);
    FinalIsHighest(p.secs);
    forall i | 0 <= i < |st.secs| && Below(st.secs, id, i) ensures SectionEnd(st.secs[i]) <= SectionEnd(st.secs[f]) {
      assert p.secs[i] == st.secs[i];
    }
    EndBelowIs(st.secs, id, f);
  }

  ghost predicate Descending(secs: seq<Section>, order: seq<nat>) {
    forall a, b :: 0 <= a < b < |order| ==> Higher(secs, order[a], order[b])
  }

  lemma FirstIsHigher(secs: seq<Section>, order: seq<nat>, k: nat)
    requires Descending(secs, order) && order != []
    ensures k in order && k != order[0] ==> Higher(secs, order[0], k)
  {
    if k in order {
      var j :| 0 <= j < |order| && order[j] == k;
      assert j > 0 ==> Higher(secs, order[0], order[j]);
    }
  }

  lemma SameHighest(secs: seq<Section>, a: seq<nat>, b: seq<nat>)
    requires Descending(secs, a) && Descending(secs, b) && (forall i :: i in a <==> i in b) && a != []
    ensures b != [] && a[0] == b[0]
    ensures forall i :: i in a[1..] <==> i in b[1..]
  {
    assert a[0] in b && b[0] in a;
    FirstIsHigher(secs, a, b[0]);
    FirstIsHigher(secs, b, a[0]);
    forall k ensures k in a[1..] <==> k in b[1..] {
      RestOf(secs, a, k);
      RestOf(secs, b, k);
    }
  }

  lemma RestOf(secs: seq<Section>, order: seq<nat>, k: int)
    requires Descending(secs, order) && order != []
    ensures k in order[1..] <==> k in order && k != order[0]
  {
    assert order == [order[0]] + order[1..];
    if k in order[1..] {
      var j :| 0 <= j < |order| - 1 && order[1..][j] == k;
      assert Higher(secs, order[0], order[j + 1]);
    }
  }

  lemma FirstIsMember(order: seq<nat>)
    ensures order == [] || order[0] in order
  {
  }

  /** The same sections can be listed from the highest down in one way only. */
  lemma {:induction false} OneOrder(secs: seq<Section>, a: seq<nat>, b: seq<nat>)
    requires Descending(secs, a) && Descending(secs, b) && forall i :: i in a <==> i in b
    ensures a == b
  {
    FirstIsMember(b);
    if a != [] {
      SameHighest(secs, a, b);
      OneOrder(secs, a[1..], b[1..]);
    }
  }

  lemma TopDownIs(secs: seq<Section>, id: nat, order: seq<nat>, i: nat)
    requires id < |secs| && TopDown(secs, id, order)
    ensures i in order <==> Above(secs, id, i)
  {
  }

  lemma SameTopDown(secs: seq<Section>, id: nat, a: seq<nat>, b: seq<nat>)
    requires id < |secs| && TopDown(secs, id, a) && TopDown(secs, id, b)
    ensures a == b
  {
    forall i | i in a || i in b ensures i in a && i in b {
      TopDownIs(secs, id, a, i);
      TopDownIs(secs, id, b, i);
    }
    OneOrder(secs, a, b);
  }

  lemma TopDownAligned(st: ImageState, id: nat, order: seq<nat>)
    requires Layout(st) && id < SECTIONS && TopDown(st.secs, id, order)
    ensures Alignments(st.secs, order)
  {
    forall k | 0 <= k < |order| ensures order[k] < |st.secs| && st.secs[order[k]].alignment > 0 {
      assert Above(st.secs, id, order[k]);
      assert Aligned(st.secs[order[k]]);
    }
  }

  lemma RebuiltFits(st: ImageState, id: nat, order: seq<nat>)
    requires Deletable(st, id) && QuickCheck(st, true) == Ok && TopDown(st.secs, id, order)
    requires Alignments(st.secs, order)
    ensures var o := Rebuilt(st, id);
      var packed := PackedSize(FinalSize(EndBelow(st.secs, id, |st.secs|)), st.secs, order);
      && o.rc == (if packed <= st.size then Ok else WouldOverflow)
      && (o.rc == Ok ==> o.image.size == packed)
  {
    ReadyToRebuild(st, id);
    PopToPops(st, id);
    var p := PopTo(st, id);
    SameTopDown(st.secs, id, order, p.order);
    PoppedSize(st, id, p.image);
    ReappendSucceedsIff(st, id, st.secs[id].offset, p.image, order);
  }

  /** A delete succeeds if and only if the sections above the target, packed one behind the other behind the
      highest end below it, still fit the original size; otherwise it reports WouldOverflow and changes
      nothing. */
  lemma DeleteSucceedsIff(st: ImageState, bufferSize: nat, id: nat, order: seq<nat>)
    requires Deletable(st, id) && QuickCheck(st, true) == Ok && bufferSize >= st.size && TopDown(st.secs, id, order)
    ensures Alignments(st.secs, order)
    ensures var o := DeleteOutcome(st, true, bufferSize, id);
      var packed := PackedSize(FinalSize(EndBelow(st.secs, id, |st.secs|)), st.secs, order);
      && o.rc == (if packed <= st.size then Ok else WouldOverflow)
      && (o.rc == Ok ==> o.image.size == packed)
  {
    TopDownAligned(st, id, order);
    RebuiltFits(st, id, order);
    if Final(st.secs) == id {
      FinalRebuilt(st, id);
    }
  }

  /** On an image whose sections above the target start on multiples of 8, the delete always succeeds and
      no section moves up. */
  lemma DeleteFitsWhenAligned(st: ImageState, bufferSize: nat, id: nat)
    requires Deletable(st, id) && QuickCheck(st, true) == Ok && bufferSize >= st.size && EightAligned(st.secs, id)
    ensures var o := DeleteOutcome(st, true, bufferSize, id);
      && o.rc == Ok && |o.image.secs| == SECTIONS && o.image.size <= st.size
      && forall i :: 0 <= i < SECTIONS && i != id && st.secs[i].size != 0 ==>
        o.image.secs[i].offset <= st.secs[i].offset
  {
    ReadyToRebuild(st, id);
    var p := PopTo(st, id);
    PoppedLowered(st, id, p.image);
    RepackingFits(st, id, st.secs[id].offset, p.image, p.order);
    RebuiltRepacks(st, id);
    if Final(st.secs) == id {
      FinalRebuilt(st, id);
    }
  }

  lemma PoppedLowered(st: ImageState, id: nat, p: ImageState)
    requires id < |st.secs| && Truncated(st.secs, id, p.secs)
    ensures Lowered(st, id, st.secs[id].offset, p)
  {
  }

  /** A table with byte-aligned neighbours: .header, .fixed, .strings and .toc one behind the other. */
  function CrampedTable(): (secs: seq<Section>)
    ensures |secs| == SECTIONS
    ensures forall i :: 0 <= i < SECTIONS ==> secs[i] == Cramped(i)
  {
    seq(SECTIONS, i => Cramped(i))
  }

  function Cramped(i: int): Section {
    if i == HEADER then Section(0, 352, 1, 0)
    else if i == FIXED then Section(352, 1, 1, 0)
    else if i == STRINGS then Section(353, 1, 1, 0)
    else if i == TOC then Section(354, 12, 1, 0)
    else Section(0, 0, 1, 0)
  }

  lemma CrampedLayout(st: ImageState)
    requires st.secs == CrampedTable() && st.size == 368 <= |st.mem|
    ensures Layout(st) && Tight(st) && Final(st.secs) == TOC
  {
    ModIsRemainder(366, FINAL_ALIGNMENT);
    ModIsRemainder(368, FINAL_ALIGNMENT);
    forall i | 0 <= i < SECTIONS ensures Aligned(st.secs[i]) {
      ModIsRemainder(st.secs[i].offset, 1);
    }
    assert Final(st.secs) == TOC by {
      assert st.secs[TOC].size != 0;
    }
  }

  /** Below .strings the table ends at 353, and the entry of .toc packed behind the 360 bytes left of it ends
      at 372. */
  lemma CrampedPacks(secs: seq<Section>, order: seq<nat>)
    requires secs == CrampedTable() && order == [TOC]
    ensures TopDown(secs, STRINGS, order)
    ensures PackedSize(FinalSize(EndBelow(secs, STRINGS, |secs|)), secs, order) == 376
  {
    EndBelowIs(secs, STRINGS, FIXED);
    ModIsRemainder(353, FINAL_ALIGNMENT);
    ModIsRemainder(360, 1);
    ModIsRemainder(372, FINAL_ALIGNMENT);
    assert PackedSize(360, secs, order) == PackedSize(376, secs, order[..0]);
  }

  /** Packing can overflow when a section above the target is not 8-aligned: deleting the one byte of
      .strings leaves the one entry of .toc no room behind the final alignment of what lies below. */
  lemma UnalignedDeleteOverflows(st: ImageState)
    requires st.secs == CrampedTable() && st.size == 368 <= |st.mem| && QuickCheck(st, true) == Ok
    ensures Layout(st)
    ensures DeleteOutcome(st, true, 368, STRINGS) == Outcome(WouldOverflow, st)
  {
    CrampedLayout(st);
    var order: seq<nat> := [TOC];
    CrampedPacks(st.secs, order);
    DeleteSucceedsIff(st, st.size, STRINGS, order);
  }

  // ---- the sorted flag

  lemma {:induction false} ReappendSorted(st: ImageState, saved: ImageState, order: seq<nat>)
    requires Layout(st) && Lends(saved, order) && |st.mem| == |saved.mem|
    requires Reappend(st, saved, order).rc == Ok
    ensures Reappend(st, saved, order).image.sorted == (st.sorted && TOC !in order)
    decreases |order|
  {
    if order != [] {
      var k := order[|order| - 1];
      AppendFromWorks(st, saved, k);
      ReappendSorted(AppendFrom(st, saved, k).image, saved, order[..|order| - 1]);
      LastMember(order, TOC);
    }
  }

  lemma LastMember(order: seq<nat>, i: nat)
    requires order != []
    ensures i in order <==> i in order[..|order| - 1] || i == order[|order| - 1]
  {
    assert order == order[..|order| - 1] + [order[|order| - 1]];
  }

  /** A delete clears the sorted flag exactly when .toc had to be moved. */
  lemma DeleteSorted(st: ImageState, hasBuffer: bool, bufferSize: nat, id: nat)
    requires Deletable(st, id) && DeleteOutcome(st, hasBuffer, bufferSize, id).rc == Ok
    ensures DeleteOutcome(st, hasBuffer, bufferSize, id).image.sorted == (st.sorted && !Above(st.secs, id, TOC))
  {
    ReadyToRebuild(st, id);
    var p := PopTo(st, id);
    if Final(st.secs) == id {
      FinalRebuilt(st, id);
    }
    ReappendSorted(p.image, st, p.order);
    PopToPops(st, id);
    if TOC in p.order {
      var k :| 0 <= k < |p.order| && p.order[k] == TOC;
      assert Above(st.secs, id, p.order[k]);
    }
  }
}
