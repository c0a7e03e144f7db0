/** The second half of a delete: the popped sections are appended again, lowest first, from the saved copy. */
module XipRepack {
  import opened XipTypes
  import opened XipLayout
  import opened XipAppend
  import opened XipDelete

  /** The saved image can lend the bytes of all these sections. */
  ghost predicate Lends(saved: ImageState, order: seq<nat>) {
    Layout(saved) && forall k :: 0 <= k < |order| ==> order[k] < SECTIONS && saved.secs[order[k]].size != 0
  }

  datatype Outcome = Outcome(rc: Rc, image: ImageState)

  ghost function AppendFrom(st: ImageState, saved: ImageState, k: nat): Outcome
    requires Layout(st) && Layout(saved) && |st.mem| == |saved.mem| && k < SECTIONS && saved.secs[k].size != 0
  {
    LentBody(saved, k);
    var data := Body(saved, k);
    var rc := AppendRc(st, k, |data|, saved.size);
    if rc != Ok then Outcome(rc, st) else
      AppendFits(st, k, |data|, saved.size);
      Outcome(Ok, Appended(st, k, data, saved.secs[k].ddSupport))
  }

  lemma LentBody(saved: ImageState, k: nat)
    requires Layout(saved) && k < SECTIONS && saved.secs[k].size != 0
    ensures SectionEnd(saved.secs[k]) <= saved.size <= |saved.mem|
    ensures |Body(saved, k)| == saved.secs[k].size
  {
    assert InImage(saved.secs[k], saved.size);
  }

  lemma AppendFits(st: ImageState, id: nat, n: nat, allocation: nat)
    requires Layout(st) && id < SECTIONS && n > 0 && AppendRc(st, id, n, allocation) == Ok && allocation <= |st.mem|
    ensures st.secs[id].alignment > 0 && AppendStart(st, id) + n <= |st.mem|
  {
    assert Aligned(st.secs[id]);
  }

  /** A successful step is a successful append, so the layout and all bodies carry over. */
  lemma AppendFromWorks(st: ImageState, saved: ImageState, k: nat)
    requires Layout(st) && Layout(saved) && |st.mem| == |saved.mem| && k < SECTIONS && saved.secs[k].size != 0
    requires AppendFrom(st, saved, k).rc == Ok
    ensures SectionEnd(saved.secs[k]) <= |saved.mem| && CanAppend(st, k, Body(saved, k), saved.size)
    ensures var r := AppendFrom(st, saved, k).image;
      Layout(r) && Tight(r) && Final(r.secs) == k && r.size <= saved.size && |r.mem| == |saved.mem|
  {
    LentBody(saved, k);
    AppendKeepsLayout(st, k, Body(saved, k), saved.size, saved.secs[k].ddSupport);
  }

  /** Append the sections of `order` again, from its end to its start, stopping at the first error. */
  ghost function Reappend(st: ImageState, saved: ImageState, order: seq<nat>): Outcome
    requires Layout(st) && Lends(saved, order) && |st.mem| == |saved.mem|
    decreases |order|
  {
    if order == [] then Outcome(Ok, st)
    else
      var k := order[|order| - 1];
      var o := AppendFrom(st, saved, k);
      if o.rc != Ok then o
      else
        AppendFromWorks(st, saved, k);
        Reappend(o.image, saved, order[..|order| - 1])
  }

  // ---- what a rebuilt image keeps

  /** Section i is back: a surviving section that started below the bound in the saved image. */
  ghost predicate There(saved: ImageState, id: nat, bound: nat, i: nat)
    requires i < |saved.secs|
  {
    i != id && saved.secs[i].size != 0 && saved.secs[i].offset < bound
  }

  /** Section i has its old size, alignment, DD flag and bytes, wherever it now starts. */
  ghost predicate SameSection(saved: ImageState, st: ImageState, i: nat) {
    && i < |saved.secs| && i < |st.secs|
    && st.secs[i].(offset := saved.secs[i].offset) == saved.secs[i]
    && SectionEnd(saved.secs[i]) <= |saved.mem| && SectionEnd(st.secs[i]) <= |st.mem|
    && Body(st, i) == Body(saved, i)
  }

  /** A popped or deleted section; one that was empty before is as it was. */
  function Missing(s: Section): Section {
    if s.size == 0 then s else Emptied(s)
  }

  /** Where section i stands while the image is rebuilt up to the bound; below the target nothing moves. */
  ghost predicate Placed(saved: ImageState, id: nat, bound: nat, st: ImageState, i: nat)
    requires id < |saved.secs| && i < |saved.secs| == |st.secs|
  {
    if There(saved, id, bound, i) then
      SameSection(saved, st, i) && (saved.secs[i].offset < saved.secs[id].offset ==> st.secs[i] == saved.secs[i])
    else st.secs[i] == Missing(saved.secs[i])
  }

  /** Sections that are back keep their relative order. */
  ghost predicate Ordered(saved: ImageState, id: nat, bound: nat, st: ImageState, i: nat, j: nat)
    requires i < |saved.secs| == |st.secs| && j < |saved.secs|
  {
    (There(saved, id, bound, i) && There(saved, id, bound, j) && saved.secs[i].offset < saved.secs[j].offset)
    ==> st.secs[i].offset < st.secs[j].offset
  }

  ghost predicate Rebuilding(saved: ImageState, id: nat, bound: nat, st: ImageState) {
    && Layout(saved) && saved.normalized && 0 < id < SECTIONS && Layout(st) && Tight(st) && |st.mem| == |saved.mem|
    && st == saved.(mem := st.mem, secs := st.secs, size := st.size, sorted := st.sorted)
    && (forall i :: 0 <= i < SECTIONS ==> Placed(saved, id, bound, st, i))
    && (forall i, j :: 0 <= i < SECTIONS && 0 <= j < SECTIONS ==> Ordered(saved, id, bound, st, i, j))
  }

  lemma UnmovedSame(saved: ImageState, p: ImageState, i: nat)
    requires Layout(saved) && p == saved.(secs := p.secs, size := p.size) && i < SECTIONS == |p.secs|
    requires p.secs[i] == saved.secs[i]
    ensures SameSection(saved, p, i)
  {
    assert InImage(saved.secs[i], saved.size);
  }

  lemma PoppedPlaced(saved: ImageState, id: nat, p: ImageState, i: nat)
    requires Layout(saved) && p == saved.(secs := p.secs, size := p.size) && i < SECTIONS && id < SECTIONS
    requires Truncated(saved.secs, id, p.secs)
    ensures Placed(saved, id, saved.secs[id].offset, p, i)
  {
    if There(saved, id, saved.secs[id].offset, i) {
      UnmovedSame(saved, p, i);
    }
  }

  lemma PoppedRebuilding(saved: ImageState, id: nat, p: ImageState)
    requires Deletable(saved, id) && Popped(saved, id, p)
    ensures Rebuilding(saved, id, saved.secs[id].offset, p)
  {
    forall i | 0 <= i < SECTIONS ensures Placed(saved, id, saved.secs[id].offset, p, i) {
      PoppedPlaced(saved, id, p, i);
    }
    PoppedOrdered(saved, id, p);
  }

  lemma PoppedOrdered(saved: ImageState, id: nat, p: ImageState)
    requires id < |saved.secs| == |p.secs| == SECTIONS && Truncated(saved.secs, id, p.secs)
    ensures forall i, j :: 0 <= i < SECTIONS && 0 <= j < SECTIONS ==> Ordered(saved, id, saved.secs[id].offset, p, i, j)
  {
  }

  /** The next section to return: the lowest surviving one at or above the bound. */
  ghost predicate Next(saved: ImageState, id: nat, bound: nat, k: nat) {
    && Layout(saved) && id < SECTIONS && k < SECTIONS && k != id
    && saved.secs[k].size != 0 && saved.secs[k].offset >= bound && saved.secs[k].offset > saved.secs[id].offset
    && forall i :: 0 <= i < SECTIONS && i != id && saved.secs[i].size != 0 && bound <= saved.secs[i].offset ==>
         saved.secs[k].offset <= saved.secs[i].offset
  }

  lemma ThereStep(saved: ImageState, id: nat, bound: nat, k: nat, i: nat)
    requires Next(saved, id, bound, k) && i < SECTIONS
    ensures There(saved, id, saved.secs[k].offset + 1, i) <==> There(saved, id, bound, i) || i == k
    ensures There(saved, id, bound, i) ==> SectionEnd(saved.secs[i]) <= saved.secs[k].offset && i != k
  {
    assert i != k ==> Disjoint(saved.secs[i], saved.secs[k]);
  }

  /** One more section back: everything rebuilt so far is untouched and the new one is on top. */
  lemma RebuildStep(saved: ImageState, id: nat, bound: nat, st: ImageState, k: nat)
    requires Rebuilding(saved, id, bound, st) && Next(saved, id, bound, k)
    requires AppendFrom(st, saved, k).rc == Ok
    ensures Rebuilding(saved, id, saved.secs[k].offset + 1, AppendFrom(st, saved, k).image)
  {
    AppendFromWorks(st, saved, k);
    var r, above := AppendFrom(st, saved, k).image, saved.secs[k].offset + 1;
    forall i | 0 <= i < SECTIONS ensures Placed(saved, id, above, r, i) {
      PlacedStep(saved, id, bound, st, k, i);
    }
    forall i, j | 0 <= i < SECTIONS && 0 <= j < SECTIONS ensures Ordered(saved, id, above, r, i, j) {
      OrderedStep(saved, id, bound, st, k, i, j);
    }
  }

  lemma PlacedStep(saved: ImageState, id: nat, bound: nat, st: ImageState, k: nat, i: nat)
    requires Rebuilding(saved, id, bound, st) && Next(saved, id, bound, k) && i < SECTIONS
    requires AppendFrom(st, saved, k).rc == Ok
    ensures |AppendFrom(st, saved, k).image.secs| == SECTIONS
    ensures Placed(saved, id, saved.secs[k].offset + 1, AppendFrom(st, saved, k).image, i)
  {
    AppendFromWorks(st, saved, k);
    LentBody(saved, k);
    AppendKeepsBodies(st, k, Body(saved, k), saved.size, saved.secs[k].ddSupport);
    ThereStep(saved, id, bound, k, i);
    assert Placed(saved, id, bound, st, i);
    if i == k {
      NewSectionSame(saved, id, bound, st, k);
    }
  }

  lemma NewSectionSame(saved: ImageState, id: nat, bound: nat, st: ImageState, k: nat)
    requires Rebuilding(saved, id, bound, st) && Next(saved, id, bound, k)
    requires AppendFrom(st, saved, k).rc == Ok
    ensures SameSection(saved, AppendFrom(st, saved, k).image, k)
  {
    AppendFromWorks(st, saved, k);
    LentBody(saved, k);
    AppendKeepsBodies(st, k, Body(saved, k), saved.size, saved.secs[k].ddSupport);
    assert Placed(saved, id, bound, st, k);
    assert InImage(AppendFrom(st, saved, k).image.secs[k], AppendFrom(st, saved, k).image.size);
    assert Body(st, k) == [];
  }

  lemma OrderedStep(saved: ImageState, id: nat, bound: nat, st: ImageState, k: nat, i: nat, j: nat)
    requires Rebuilding(saved, id, bound, st) && Next(saved, id, bound, k) && i < SECTIONS && j < SECTIONS
    requires AppendFrom(st, saved, k).rc == Ok
    ensures |AppendFrom(st, saved, k).image.secs| == SECTIONS
    ensures Ordered(saved, id, saved.secs[k].offset + 1, AppendFrom(st, saved, k).image, i, j)
  {
    AppendFromWorks(st, saved, k);
    ThereStep(saved, id, bound, k, i);
    ThereStep(saved, id, bound, k, j);
    assert Ordered(saved, id, bound, st, i, j);
    assert Placed(saved, id, bound, st, i);
    var r := AppendFrom(st, saved, k).image;
    if There(saved, id, bound, i) && j == k {
      FinalIsHighest(r.secs);
      assert r.secs[i] == st.secs[i];
    }
  }

  // ---- the whole rebuild

  /** Sections still to be appended: every survivor at or above the bound, highest first. */
  ghost predicate Pending(secs: seq<Section>, id: nat, bound: nat, order: seq<nat>)
    requires id < |secs|
  {
    && (forall k :: 0 <= k < |order| ==> Waits(secs, id, bound, order[k]))
    && (forall i :: 0 <= i < |secs| && i != id && secs[i].size != 0 && secs[i].offset >= bound ==> i in order)
    && (forall a, b :: 0 <= a < b < |order| ==> Higher(secs, order[a], order[b]))
  }

  predicate Waits(secs: seq<Section>, id: nat, bound: nat, k: nat)
    requires id < |secs|
  {
    k < |secs| && k != id && secs[k].size != 0 && secs[k].offset >= bound && secs[k].offset > secs[id].offset
  }

  lemma TopDownPending(secs: seq<Section>, id: nat, order: seq<nat>)
    requires Separate(secs) && id < |secs| && secs[id].size != 0 && TopDown(secs, id, order)
    ensures Pending(secs, id, secs[id].offset, order)
  {
    forall i | 0 <= i < |secs| && i != id && secs[i].size != 0 && secs[i].offset >= secs[id].offset ensures i in order {
      assert Disjoint(secs[i], secs[id]);
      assert Above(secs, id, i);
    }
    forall k | 0 <= k < |order| ensures Waits(secs, id, secs[id].offset, order[k]) {
      assert Above(secs, id, order[k]);
    }
  }

  lemma PendingNext(saved: ImageState, id: nat, bound: nat, order: seq<nat>)
    requires Layout(saved) && id < SECTIONS && order != [] && Pending(saved.secs, id, bound, order)
    ensures Next(saved, id, bound, order[|order| - 1])
  {
    var k := order[|order| - 1];
    assert Waits(saved.secs, id, bound, k);
    forall i | 0 <= i < SECTIONS && i != id && saved.secs[i].size != 0 && bound <= saved.secs[i].offset
      ensures saved.secs[k].offset <= saved.secs[i].offset
    {
      assert i in order;
      var a :| 0 <= a < |order| && order[a] == i;
      assert a < |order| - 1 ==> Higher(saved.secs, order[a], k);
    }
  }

  lemma PendingStep(secs: seq<Section>, id: nat, bound: nat, order: seq<nat>)
    requires id < |secs| && order != [] && Pending(secs, id, bound, order) && order[|order| - 1] < |secs|
    ensures Pending(secs, id, secs[order[|order| - 1]].offset + 1, order[..|order| - 1])
  {
    var n := |order| - 1;
    var k := order[n];
    assert Waits(secs, id, bound, k);
    forall a | 0 <= a < n ensures Waits(secs, id, secs[k].offset + 1, order[..n][a]) {
      assert Waits(secs, id, bound, order[a]) && Higher(secs, order[a], order[n]);
    }
    forall i | 0 <= i < |secs| && i != id && secs[i].size != 0 && secs[i].offset >= secs[k].offset + 1
      ensures i in order[..n]
    {
      assert i in order;
      var a :| 0 <= a < |order| && order[a] == i;
      assert order[..n][a] == i;
    }
    forall a, b | 0 <= a < b < n ensures Higher(secs, order[..n][a], order[..n][b]) {
      assert Higher(secs, order[a], order[b]);
    }
  }

  /** What a delete leaves: the target is gone and every other section has its size, attributes, bytes
      and its place in the order of the image; below the target nothing has moved. */
  ghost predicate Repacked(saved: ImageState, id: nat, st: ImageState) {
    && Layout(saved) && 0 < id < SECTIONS && Layout(st) && Tight(st) && |st.mem| == |saved.mem|
    && st == saved.(mem := st.mem, secs := st.secs, size := st.size, sorted := st.sorted)
    && (forall i :: 0 <= i < SECTIONS ==> Kept(saved, id, st, i))
    && (forall i, j :: 0 <= i < SECTIONS && 0 <= j < SECTIONS ==> SameOrder(saved, id, st, i, j))
  }

  ghost predicate Kept(saved: ImageState, id: nat, st: ImageState, i: nat)
    requires id < |saved.secs| && i < |saved.secs| == |st.secs|
  {
    if i == id || saved.secs[i].size == 0 then st.secs[i] == Missing(saved.secs[i])
    else SameSection(saved, st, i) && (saved.secs[i].offset < saved.secs[id].offset ==> st.secs[i] == saved.secs[i])
  }

  ghost predicate SameOrder(saved: ImageState, id: nat, st: ImageState, i: nat, j: nat)
    requires i < |saved.secs| == |st.secs| && j < |saved.secs|
  {
    (i != id && j != id && saved.secs[i].size != 0 && saved.secs[j].size != 0
      && saved.secs[i].offset < saved.secs[j].offset)
    ==> st.secs[i].offset < st.secs[j].offset
  }

  lemma ThereAtLast(saved: ImageState, id: nat, bound: nat, i: nat)
    requires id < |saved.secs| && Pending(saved.secs, id, bound, []) && i < |saved.secs|
    ensures There(saved, id, bound, i) <==> i != id && saved.secs[i].size != 0
  {
  }

  lemma AllBack(saved: ImageState, id: nat, bound: nat, st: ImageState)
    requires Rebuilding(saved, id, bound, st) && saved.secs[id].size != 0 && Pending(saved.secs, id, bound, [])
    ensures Repacked(saved, id, st)
  {
    forall i | 0 <= i < SECTIONS ensures Kept(saved, id, st, i) {
      ThereAtLast(saved, id, bound, i);
      assert Placed(saved, id, bound, st, i);
    }
    forall i, j | 0 <= i < SECTIONS && 0 <= j < SECTIONS ensures SameOrder(saved, id, st, i, j) {
      ThereAtLast(saved, id, bound, i);
      ThereAtLast(saved, id, bound, j);
      assert Ordered(saved, id, bound, st, i, j);
    }
  }

  lemma PendingLends(saved: ImageState, id: nat, bound: nat, order: seq<nat>)
    requires Layout(saved) && id < SECTIONS && Pending(saved.secs, id, bound, order)
    ensures Lends(saved, order)
  {
    forall k | 0 <= k < |order| ensures order[k] < SECTIONS && saved.secs[order[k]].size != 0 {
      assert Waits(saved.secs, id, bound, order[k]);
    }
  }

  /** One turn of the loop: the section taken from the end of `order` is the next one, and if its
      append succeeds the rest is still pending for the longer image. */
  lemma Turn(saved: ImageState, id: nat, bound: nat, st: ImageState, order: seq<nat>)
    requires Rebuilding(saved, id, bound, st) && Pending(saved.secs, id, bound, order) && order != []
    ensures var k := order[|order| - 1];
      Next(saved, id, bound, k) &&
      (AppendFrom(st, saved, k).rc == Ok ==>
        Rebuilding(saved, id, saved.secs[k].offset + 1, AppendFrom(st, saved, k).image)
        && AppendFrom(st, saved, k).image.size <= saved.size
        && Pending(saved.secs, id, saved.secs[k].offset + 1, order[..|order| - 1]))
  {
    var k := order[|order| - 1];
    PendingNext(saved, id, bound, order);
    if AppendFrom(st, saved, k).rc == Ok {
      AppendFromWorks(st, saved, k);
      RebuildStep(saved, id, bound, st, k);
      PendingStep(saved.secs, id, bound, order);
    }
  }

  /** Appending everything that is pending, if no append fails, gives the repacked image. */
  lemma {:induction false} ReappendRepacks(saved: ImageState, id: nat, bound: nat, st: ImageState, order: seq<nat>)
    requires Rebuilding(saved, id, bound, st) && saved.secs[id].size != 0 && Pending(saved.secs, id, bound, order)
    requires st.size <= saved.size
    ensures Lends(saved, order)
    ensures Reappend(st, saved, order).rc == Ok ==>
      Repacked(saved, id, Reappend(st, saved, order).image) && Reappend(st, saved, order).image.size <= saved.size
    decreases |order|
  {
    PendingLends(saved, id, bound, order);
    if order == [] {
      AllBack(saved, id, bound, st);
    } else {
      var k := order[|order| - 1];
      Turn(saved, id, bound, st, order);
      var o := AppendFrom(st, saved, k);
      if o.rc == Ok {
        ReappendRepacks(saved, id, saved.secs[k].offset + 1, o.image, order[..|order| - 1]);
      }
    }
  }
}
