/** When a delete succeeds: exactly when the sections above the target, packed again, fit the old size. */
module XipRepackFits {
  import opened XipTypes
  import opened XipLayout
  import opened XipAppend
  import opened XipDelete
  import opened XipRepack

  /** The image size after the sections of `order` have been packed behind `size` bytes, last one first. */
  function PackedSize(size: nat, secs: seq<Section>, order: seq<nat>): (r: nat)
    requires Alignments(secs, order)
    ensures size <= r
    decreases |order|
  {
    if order == [] then size
    else
      var s := secs[order[|order| - 1]];
      PackedSize(FinalSize(PadTo(size, s.alignment) + s.size), secs, order[..|order| - 1])
  }

  lemma PendingAligned(saved: ImageState, id: nat, bound: nat, order: seq<nat>)
    requires Layout(saved) && id < SECTIONS && Pending(saved.secs, id, bound, order)
    ensures Alignments(saved.secs, order)
  {
    forall k | 0 <= k < |order| ensures order[k] < |saved.secs| && saved.secs[order[k]].alignment > 0 {
      assert Waits(saved.secs, id, bound, order[k]);
      assert Aligned(saved.secs[order[k]]);
    }
  }

  /** The next append succeeds exactly when the packed end of the section fits the saved size. */
  lemma NextFits(saved: ImageState, st: ImageState, k: nat)
    requires Layout(saved) && Layout(st) && |st.mem| == |saved.mem| && k < SECTIONS && saved.secs[k].size != 0
    requires st.secs[k].size == 0 && st.secs[k].alignment == saved.secs[k].alignment > 0 && QuickCheck(st, true) == Ok
    ensures var size := FinalSize(PadTo(st.size, saved.secs[k].alignment) + saved.secs[k].size);
      var o := AppendFrom(st, saved, k);
      (o.rc == Ok || o.rc == WouldOverflow) && (o.rc == Ok <==> size <= saved.size)
        && (o.rc == Ok ==> o.image.size == size)
  {
    LentBody(saved, k);
    assert Aligned(st.secs[k]);
    EmptyAppendRc(st, k, saved.secs[k].size, saved.size);
  }

  lemma NextIsEmpty(saved: ImageState, id: nat, bound: nat, st: ImageState, k: nat)
    requires Rebuilding(saved, id, bound, st) && Next(saved, id, bound, k)
    ensures st.secs[k].size == 0 && st.secs[k].alignment == saved.secs[k].alignment > 0
    ensures QuickCheck(st, true) == QuickCheck(saved, true)
  {
    assert Placed(saved, id, bound, st, k);
    assert Aligned(saved.secs[k]);
  }

  lemma EmptyAppendRc(st: ImageState, k: nat, n: nat, allocation: nat)
    requires k < |st.secs| == SECTIONS && st.secs[k].size == 0 && PowerOfTwo(st.secs[k].alignment) && n > 0
    requires QuickCheck(st, true) == Ok
    ensures AppendRc(st, k, n, allocation) ==
      if FinalSize(PadTo(st.size, st.secs[k].alignment) + n) > allocation then WouldOverflow else Ok
  {
  }

  ghost predicate Alignments(secs: seq<Section>, order: seq<nat>) {
    forall k :: 0 <= k < |order| ==> order[k] < |secs| && secs[order[k]].alignment > 0
  }

  /** The appends of `order` run through exactly when the packed size fits the saved one, which it then is. */
  ghost predicate FitsExactly(saved: ImageState, st: ImageState, order: seq<nat>)
    requires Layout(st) && Lends(saved, order) && |st.mem| == |saved.mem| && Alignments(saved.secs, order)
  {
    var o, packed := Reappend(st, saved, order), PackedSize(st.size, saved.secs, order);
    && (o.rc == Ok || o.rc == WouldOverflow) && (o.rc == Ok <==> packed <= saved.size)
    && (o.rc == Ok ==> o.image.size == packed)
  }

  lemma FirstDoesNotFit(saved: ImageState, st: ImageState, order: seq<nat>, k: nat)
    requires Layout(st) && Lends(saved, order) && |st.mem| == |saved.mem| && Alignments(saved.secs, order)
    requires order != [] && k == order[|order| - 1] && AppendFrom(st, saved, k).rc == WouldOverflow
    requires FinalSize(PadTo(st.size, saved.secs[k].alignment) + saved.secs[k].size) > saved.size
    ensures FitsExactly(saved, st, order)
  {
  }

  lemma FirstFits(saved: ImageState, st: ImageState, order: seq<nat>, k: nat, next: ImageState)
    requires Layout(st) && Lends(saved, order) && |st.mem| == |saved.mem| && Alignments(saved.secs, order)
    requires order != [] && k == order[|order| - 1] && AppendFrom(st, saved, k) == Outcome(Ok, next)
    requires next.size == FinalSize(PadTo(st.size, saved.secs[k].alignment) + saved.secs[k].size)
    requires Layout(next) && |next.mem| == |saved.mem| && FitsExactly(saved, next, order[..|order| - 1])
    ensures FitsExactly(saved, st, order)
  {
  }

  /** Everything is in place to append the sections of `order` again. */
  ghost predicate Resumable(saved: ImageState, id: nat, bound: nat, st: ImageState, order: seq<nat>) {
    && Rebuilding(saved, id, bound, st) && saved.secs[id].size != 0 && Pending(saved.secs, id, bound, order)
    && QuickCheck(saved, true) == Ok && st.size <= saved.size
  }

  /** The next append, and what it leads to. */
  lemma ResumedTurn(saved: ImageState, id: nat, bound: nat, st: ImageState, order: seq<nat>, k: nat)
    requires Resumable(saved, id, bound, st, order) && order != [] && k == order[|order| - 1]
    ensures k < SECTIONS && saved.secs[k].size != 0 && saved.secs[k].alignment > 0
    ensures var size := FinalSize(PadTo(st.size, saved.secs[k].alignment) + saved.secs[k].size);
      var o := AppendFrom(st, saved, k);
      && (o.rc == Ok || (o.rc == WouldOverflow && size > saved.size))
      && (o.rc == Ok ==> o.image.size == size)
      && (o.rc == Ok ==> Resumable(saved, id, saved.secs[k].offset + 1, o.image, order[..|order| - 1]))
  {
    Turn(saved, id, bound, st, order);
    NextIsEmpty(saved, id, bound, st, k);
    NextFits(saved, st, k);
  }

  /** The rebuild runs through if and only if the packed size fits; then it is the new image size. */
  lemma {:induction false} ReappendSucceedsIff(saved: ImageState, id: nat, bound: nat, st: ImageState, order: seq<nat>)
    requires Resumable(saved, id, bound, st, order)
    ensures Lends(saved, order) && Alignments(saved.secs, order) && FitsExactly(saved, st, order)
    decreases |order|
  {
    PendingLends(saved, id, bound, order);
    PendingAligned(saved, id, bound, order);
    if order != [] {
      var k := order[|order| - 1];
      ResumedTurn(saved, id, bound, st, order, k);
      var o := AppendFrom(st, saved, k);
      if o.rc == Ok {
        ReappendSucceedsIff(saved, id, saved.secs[k].offset + 1, o.image, order[..|order| - 1]);
        FirstFits(saved, st, order, k, o.image);
      } else {
        FirstDoesNotFit(saved, st, order, k);
      }
    }
  }

  // ---- images laid out by append always fit

  /** Every section above the target starts on a multiple of 8, as append lays sections out. */
  ghost predicate EightAligned(secs: seq<Section>, id: nat)
    requires id < |secs|
  {
    forall i :: 0 <= i < |secs| && Above(secs, id, i) ==> Mod(secs[i].offset, FINAL_ALIGNMENT) == 0
  }

  ghost predicate Lowered(saved: ImageState, id: nat, bound: nat, st: ImageState) {
    |saved.secs| == |st.secs| && forall i :: 0 <= i < |saved.secs| && There(saved, id, bound, i) ==>
      st.secs[i].offset <= saved.secs[i].offset
  }

  /** The rebuilt part never reaches past the old start of the next section. */
  lemma RoomBelowNext(saved: ImageState, id: nat, bound: nat, st: ImageState, k: nat)
    requires Rebuilding(saved, id, bound, st) && Next(saved, id, bound, k) && Lowered(saved, id, bound, st)
    requires Mod(saved.secs[k].offset, FINAL_ALIGNMENT) == 0
    ensures st.size <= saved.secs[k].offset
  {
    var f := Final(st.secs);
    assert Placed(saved, id, bound, st, f);
    ThereStep(saved, id, bound, k, f);
    PadToLeast(SectionEnd(st.secs[f]), FINAL_ALIGNMENT, saved.secs[k].offset);
  }

  lemma NextLowered(saved: ImageState, id: nat, bound: nat, st: ImageState, k: nat)
    requires Rebuilding(saved, id, bound, st) && Next(saved, id, bound, k) && Lowered(saved, id, bound, st)
    requires Mod(saved.secs[k].offset, FINAL_ALIGNMENT) == 0 && QuickCheck(saved, true) == Ok
    ensures AppendFrom(st, saved, k).rc == Ok
    ensures Lowered(saved, id, saved.secs[k].offset + 1, AppendFrom(st, saved, k).image)
  {
    RoomBelowNext(saved, id, bound, st, k);
    NextIsEmpty(saved, id, bound, st, k);
    NextFits(saved, st, k);
    assert Aligned(saved.secs[k]) && InImage(saved.secs[k], saved.size);
    PadToLeast(st.size, saved.secs[k].alignment, saved.secs[k].offset);
    PadToLeast(PadTo(st.size, saved.secs[k].alignment) + saved.secs[k].size, FINAL_ALIGNMENT, saved.size);
    var r := AppendFrom(st, saved, k).image;
    assert Placed(saved, id, bound, st, k);
    LentBody(saved, k);
    forall i | 0 <= i < SECTIONS && There(saved, id, saved.secs[k].offset + 1, i)
      ensures r.secs[i].offset <= saved.secs[i].offset
    {
      ThereStep(saved, id, bound, k, i);
    }
  }

  /** Repacking never overflows: with 8-aligned sections every append succeeds and no section moves up. */
  lemma {:induction false} RepackingFits(saved: ImageState, id: nat, bound: nat, st: ImageState, order: seq<nat>)
    requires Rebuilding(saved, id, bound, st) && saved.secs[id].size != 0 && Pending(saved.secs, id, bound, order)
    requires QuickCheck(saved, true) == Ok && Lowered(saved, id, bound, st) && EightAligned(saved.secs, id)
    ensures Lends(saved, order)
    ensures Reappend(st, saved, order).rc == Ok
    ensures |Reappend(st, saved, order).image.secs| == SECTIONS
    ensures forall i :: 0 <= i < SECTIONS && i != id && saved.secs[i].size != 0 ==>
      Reappend(st, saved, order).image.secs[i].offset <= saved.secs[i].offset
    decreases |order|
  {
    PendingLends(saved, id, bound, order);
    if order == [] {
      forall i | 0 <= i < SECTIONS && i != id && saved.secs[i].size != 0
        ensures st.secs[i].offset <= saved.secs[i].offset
      {
        ThereAtLast(saved, id, bound, i);
      }
    } else {
      var k := order[|order| - 1];
      Turn(saved, id, bound, st, order);
      assert Above(saved.secs, id, k);
      NextLowered(saved, id, bound, st, k);
      RepackingFits(saved, id, saved.secs[k].offset + 1, AppendFrom(st, saved, k).image, order[..|order| - 1]);
    }
  }
}
