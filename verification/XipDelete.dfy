/** p9_xip_delete_section: pop sections off the top until the target is gone, then append the
    popped ones again from a saved copy. */
module XipDelete {
  import opened Bytes
  import opened XipTypes
  import opened XipLayout

  function Emptied(s: Section): Section {
    s.(offset := 0, size := 0, ddSupport := 0)
  }

  lemma EmptiedAligned(s: Section)
    requires Aligned(s)
    ensures Aligned(Emptied(s))
  {
  }

  /** The section table without section f, and the image size that goes with it. */
  function TableWithout(secs: seq<Section>, f: nat): seq<Section>
    requires f < |secs|
  {
    secs[f := Emptied(secs[f])]
  }

  function SizeOf(secs: seq<Section>): nat
    requires Final(secs) >= 0
  {
    FinalSize(SectionEnd(secs[Final(secs)]))
  }

  /** The image after its final section f has been removed and the final alignment re-established. */
  ghost function WithoutLast(st: ImageState, f: nat): (r: ImageState)
    requires Layout(st) && st.normalized && f == Final(st.secs) != HEADER
    ensures Layout(r) && Tight(r) && r.size <= st.size
  {
    WithoutLastSize(st, f);
    WithoutLastInside(st, f);
    EmptyingKeepsSeparate(st.secs, f);
    EmptiedAligned(st.secs[f]);
    PadToIsMultiple(SectionEnd(TableWithout(st.secs, f)[Final(TableWithout(st.secs, f))]), FINAL_ALIGNMENT);
    st.(secs := TableWithout(st.secs, f), size := SizeOf(TableWithout(st.secs, f)))
  }

  lemma WithoutLastSize(st: ImageState, f: nat)
    requires Layout(st) && st.normalized && f == Final(st.secs) != HEADER
    ensures Final(TableWithout(st.secs, f)) >= 0
    ensures HEADER_SIZE <= SizeOf(TableWithout(st.secs, f)) <= st.size
  {
    var secs := TableWithout(st.secs, f);
    assert secs[HEADER].size != 0;
    var g := Final(secs);
    assert InImage(st.secs[g], st.size);
    EmptyingKeepsSeparate(st.secs, f);
    FinalIsHighest(secs);
    PadToLeast(SectionEnd(secs[g]), FINAL_ALIGNMENT, st.size);
    FinalSizeHoldsHeader(SectionEnd(secs[g]));
  }

  lemma WithoutLastInside(st: ImageState, f: nat)
    requires Layout(st) && st.normalized && f == Final(st.secs) && Final(TableWithout(st.secs, f)) >= 0
    ensures forall i :: 0 <= i < SECTIONS ==> InImage(TableWithout(st.secs, f)[i], SizeOf(TableWithout(st.secs, f)))
  {
    EmptyingKeepsSeparate(st.secs, f);
    FinalIsHighest(TableWithout(st.secs, f));
  }

  lemma EmptyingKeepsSeparate(secs: seq<Section>, f: nat)
    requires f < |secs| && Separate(secs)
    ensures Separate(TableWithout(secs, f))
  {
    var secs' := TableWithout(secs, f);
    forall i, j | 0 <= i < |secs| && 0 <= j < |secs| && i != j ensures Disjoint(secs'[i], secs'[j]) {
      assert Disjoint(secs[i], secs[j]);
    }
  }

  // ---- popping sections down to the target

  /** Number of non-empty sections among the first n: each pop lowers it. */
  function Present(secs: seq<Section>, n: nat): nat
    requires n <= |secs|
  {
    if n == 0 then 0 else Present(secs, n - 1) + (if secs[n - 1].size != 0 then 1 else 0)
  }

  function Count(secs: seq<Section>): nat {
    Present(secs, |secs|)
  }

  lemma {:induction false} PresentDrops(secs: seq<Section>, n: nat, f: nat)
    requires n <= |secs| && f < |secs| && secs[f].size != 0
    ensures Present(TableWithout(secs, f), n) == Present(secs, n) - (if f < n then 1 else 0)
  {
    if n > 0 {
      PresentDrops(secs, n - 1, f);
    }
  }

  /** No 32-bit sum wraps when sections of an image of this size are appended to what is left of it. */
  predicate RebuildSumsFit(size: nat) {
    2 * size + MAX_SECTION_ALIGNMENT + FINAL_ALIGNMENT <= U32_LIMIT
  }

  ghost predicate DeleteAllowed(st: ImageState, hasBuffer: bool, id: int) {
    hasBuffer && Final(st.secs) != id ==> RebuildSumsFit(st.size)
  }

  /** The target of a delete: an existing section other than .header. */
  ghost predicate Deletable(st: ImageState, id: nat) {
    Layout(st) && st.normalized && 0 < id < SECTIONS && st.secs[id].size != 0
  }

  lemma FinalAboveHeader(st: ImageState, id: nat)
    requires Deletable(st, id)
    ensures Final(st.secs) > 0 && st.secs[Final(st.secs)].offset >= st.secs[id].offset
    ensures Final(st.secs) != id ==> Deletable(WithoutLast(st, Final(st.secs)), id)
    ensures Count(WithoutLast(st, Final(st.secs)).secs) < Count(st.secs)
  {
    PresentDrops(st.secs, |st.secs|, Final(st.secs));
  }

  datatype Popping = Popping(image: ImageState, order: seq<nat>) {
    function Then(f: nat): Popping {
      Popping(image, [f] + order)
    }
  }

  /** The image without every section from the target upwards, and the others popped, highest first. */
  ghost function PopTo(st: ImageState, id: nat): Popping
    requires Deletable(st, id)
    decreases Count(st.secs)
  {
    FinalAboveHeader(st, id);
    var f: nat := Final(st.secs);
    var below := WithoutLast(st, f);
    if f == id then Popping(below, []) else PopTo(below, id).Then(f)
  }

  ghost predicate Above(secs: seq<Section>, id: nat, i: nat)
    requires id < |secs|
  {
    i < |secs| && secs[i].size != 0 && secs[i].offset > secs[id].offset
  }

  /** The sections above the target, each once, from the highest down. */
  ghost predicate TopDown(secs: seq<Section>, id: nat, order: seq<nat>)
    requires id < |secs|
  {
    && (forall k :: 0 <= k < |order| ==> Above(secs, id, order[k]))
    && (forall i :: Above(secs, id, i) ==> i in order)
    && (forall a, b :: 0 <= a < b < |order| ==> Higher(secs, order[a], order[b]))
  }

  predicate Higher(secs: seq<Section>, i: nat, j: nat) {
    i < |secs| && j < |secs| && secs[i].offset > secs[j].offset
  }

  /** The table after a pop down to the target: it and everything above it are empty. */
  ghost predicate Truncated(secs: seq<Section>, id: nat, secs': seq<Section>)
    requires id < |secs|
  {
    |secs'| == |secs| && forall i :: 0 <= i < |secs| ==>
      secs'[i] == if secs[i].size != 0 && secs[i].offset >= secs[id].offset then Emptied(secs[i]) else secs[i]
  }

  /** Popping removes exactly the target and the sections above it; nothing else moves. */
  ghost predicate Popped(st: ImageState, id: nat, p: ImageState)
    requires id < |st.secs|
  {
    && Layout(p) && Tight(p) && p.size <= st.size && p == st.(secs := p.secs, size := p.size)
    && Truncated(st.secs, id, p.secs)
  }

  lemma {:induction false} PopToPops(st: ImageState, id: nat)
    requires Deletable(st, id)
    ensures Popped(st, id, PopTo(st, id).image) && TopDown(st.secs, id, PopTo(st, id).order)
    decreases Count(st.secs)
  {
    FinalAboveHeader(st, id);
    FinalIsHighest(st.secs);
    var f := Final(st.secs);
    if f != id {
      var st1 := WithoutLast(st, f);
      PopToPops(st1, id);
      var r := PopTo(st1, id);
      TruncatedStep(st.secs, id, f, r.image.secs);
      TopDownStep(st.secs, id, f, r.order);
    } else {
      assert TopDown(st.secs, id, []);
      assert Truncated(st.secs, id, TableWithout(st.secs, f));
    }
  }

  lemma TruncatedStep(secs: seq<Section>, id: nat, f: nat, secs': seq<Section>)
    requires Separate(secs) && id < |secs| && f == Final(secs) && f != id && secs[id].size != 0
    requires Truncated(TableWithout(secs, f), id, secs')
    ensures Truncated(secs, id, secs')
  {
    forall i | 0 <= i < |secs|
      ensures secs'[i] == if secs[i].size != 0 && secs[i].offset >= secs[id].offset then Emptied(secs[i]) else secs[i]
    {
      assert i != f ==> TableWithout(secs, f)[i] == secs[i];
    }
  }

  lemma TopDownStep(secs: seq<Section>, id: nat, f: nat, order: seq<nat>)
    requires Separate(secs) && id < |secs| && f == Final(secs) && f != id && secs[id].size != 0
    requires TopDown(TableWithout(secs, f), id, order)
    ensures TopDown(secs, id, [f] + order)
  {
    var all, rest := [f] + order, TableWithout(secs, f);
    FinalIsHighest(secs);
    forall i | Above(secs, id, i) ensures i in all {
      if i != f {
        assert Above(rest, id, i);
      }
    }
    forall k | 0 <= k < |all| ensures Above(secs, id, all[k]) {
      assert k > 0 ==> Above(rest, id, order[k - 1]);
    }
    forall a, b | 0 <= a < b < |all| ensures Higher(secs, all[a], all[b]) {
      assert Above(rest, id, order[b - 1]);
      assert a > 0 ==> Above(rest, id, order[a - 1]) && Higher(rest, order[a - 1], order[b - 1]);
    }
  }
}
