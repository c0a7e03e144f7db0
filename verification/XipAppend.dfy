/** p9_xip_append: what it computes, and the laws it keeps. */
module XipAppend {
  import opened Bytes
  import opened XipTypes
  import opened XipLayout

  /** Where the next byte of a section goes: after padding when the section is still empty. */
  function AppendStart(st: ImageState, id: nat): (start: nat)
    requires id < |st.secs| && (st.secs[id].size == 0 ==> st.secs[id].alignment > 0)
  {
    var s := st.secs[id];
    if s.size == 0 then PadTo(st.size, s.alignment) else SectionEnd(s)
  }

  /** The return code, by the checks of the source in their order. */
  function AppendRc(st: ImageState, id: int, n: nat, allocation: nat): Rc
    requires |st.secs| == SECTIONS
  {
    if QuickCheck(st, true) != Ok then QuickCheck(st, true)
    else if !(0 <= id < SECTIONS) then InvalidArgument
    else if n == 0 then Ok
    else
      var s := st.secs[id];
      if s.size == 0 && !PowerOfTwo(s.alignment) then InvalidArgument
      else if s.size != 0 && Final(st.secs) != id then SectionError
      else if FinalSize(AppendStart(st, id) + n) > allocation then WouldOverflow
      else Ok
  }

  /** The image after n > 0 bytes have been appended to section id. */
  function Appended(st: ImageState, id: nat, data: seq<byte>, dd: nat): (r: ImageState)
    requires id < |st.secs| && (st.secs[id].size == 0 ==> st.secs[id].alignment > 0)
    requires AppendStart(st, id) + |data| <= |st.mem|
  {
    var s, start := st.secs[id], AppendStart(st, id);
    var base := if s.size == 0 then st.size else start;
    st.(mem := Splice(st.mem, base, Zeros(start - base) + data),
        secs := st.secs[id := s.(offset := start - s.size, size := s.size + |data|, ddSupport := dd)],
        size := FinalSize(start + |data|),
        sorted := st.sorted && id != TOC)
  }

  /** First byte that an append to section id may write. */
  function FirstWritten(st: ImageState, id: int): nat
    requires |st.secs| == SECTIONS
  {
    if 0 <= id < SECTIONS && st.secs[id].size != 0 then SectionEnd(st.secs[id]) else st.size
  }

  /** An append that found too little room changes nothing but memory past the section it wanted to extend. */
  ghost predicate Restored(st: ImageState, st': ImageState, from: nat, allocation: nat) {
    && st' == st.(mem := st'.mem)
    && |st'.mem| == |st.mem|
    && forall p :: 0 <= p < |st.mem| && (p < from || p >= allocation) ==> st'.mem[p] == st.mem[p]
  }

  ghost predicate AppendPost(st: ImageState, st': ImageState, id: int, data: seq<byte>, allocation: nat, dd: nat,
                             rc: Rc)
    requires |st.secs| == SECTIONS && allocation <= |st.mem|
  {
    && rc == AppendRc(st, id, |data|, allocation)
    && (if rc == WouldOverflow then Restored(st, st', FirstWritten(st, id), allocation)
        else if rc != Ok || data == [] then st' == st
        else st' == Appended(st, id, data, dd))
  }

  /** No 32-bit sum of the append wraps: the section ends inside the image, and image, padding and data fit. */
  ghost predicate NoWrap(st: ImageState, id: int, n: nat)
    requires |st.secs| == SECTIONS
  {
    && st.size + MAX_SECTION_ALIGNMENT + n + FINAL_ALIGNMENT <= U32_LIMIT
    && (0 <= id < SECTIONS ==> st.secs[id].alignment <= MAX_SECTION_ALIGNMENT && SectionEnd(st.secs[id]) <= st.size)
  }

  // ---- laws

  /** Everything an append needs to succeed with data. */
  ghost predicate CanAppend(st: ImageState, id: nat, data: seq<byte>, allocation: nat) {
    && Layout(st) && data != [] && allocation <= |st.mem| && allocation < U32_LIMIT
    && AppendRc(st, id, |data|, allocation) == Ok
  }

  /** Every other section ends before the first byte written. */
  lemma OthersLieBelow(st: ImageState, id: nat, data: seq<byte>, allocation: nat, i: nat)
    requires CanAppend(st, id, data, allocation)
    requires i < SECTIONS && i != id && st.secs[i].size != 0
    ensures SectionEnd(st.secs[i]) <= FirstWritten(st, id) <= AppendStart(st, id)
    ensures SectionEnd(st.secs[i]) <= AppendStart(st, id) - st.secs[id].size
  {
    assert InImage(st.secs[i], st.size);
    if st.secs[id].size != 0 {
      FinalIsHighest(st.secs);
    }
  }

  /** The extended section is aligned and inside the image, whose size fits the allocation. */
  lemma ExtendedSection(st: ImageState, id: nat, data: seq<byte>, allocation: nat, dd: nat)
    requires CanAppend(st, id, data, allocation)
    ensures var r := Appended(st, id, data, dd);
      && Aligned(r.secs[id]) && InImage(r.secs[id], r.size)
      && HEADER_SIZE <= r.size <= allocation && Mod(r.size, FINAL_ALIGNMENT) == 0
      && r.size == FinalSize(SectionEnd(r.secs[id]))
  {
    var start := AppendStart(st, id);
    PadToIsMultiple(start + |data|, FINAL_ALIGNMENT);
    assert Aligned(st.secs[id]);
    if st.secs[id].size == 0 {
      PadToIsMultiple(st.size, st.secs[id].alignment);
    }
    if id != HEADER {
      OthersLieBelow(st, id, data, allocation, HEADER);
    }
    FinalSizeHoldsHeader(start + |data|);
  }

  /** The layout invariant survives, and the image ends at the extended section. */
  lemma AppendKeepsLayout(st: ImageState, id: nat, data: seq<byte>, allocation: nat, dd: nat)
    requires CanAppend(st, id, data, allocation)
    ensures var r := Appended(st, id, data, dd);
      Layout(r) && Tight(r) && Final(r.secs) == id && r.size <= allocation
  {
    var r := Appended(st, id, data, dd);
    ExtendedSection(st, id, data, allocation, dd);
    forall i | 0 <= i < SECTIONS && i != id && st.secs[i].size != 0
      ensures SectionEnd(st.secs[i]) <= r.secs[id].offset
    {
      OthersLieBelow(st, id, data, allocation, i);
    }
    forall i, j | 0 <= i < SECTIONS && 0 <= j < SECTIONS && i != j ensures Disjoint(r.secs[i], r.secs[j]) {
      assert Disjoint(st.secs[i], st.secs[j]);
    }
    assert Final(r.secs) == id;
  }

  lemma OtherBodyKept(st: ImageState, id: nat, data: seq<byte>, allocation: nat, dd: nat, i: nat)
    requires CanAppend(st, id, data, allocation)
    requires i < SECTIONS && i != id
    ensures SectionEnd(st.secs[i]) <= |st.mem|
    ensures Body(Appended(st, id, data, dd), i) == Body(st, i)
  {
    assert InImage(st.secs[i], st.size);
    if st.secs[i].size != 0 {
      OthersLieBelow(st, id, data, allocation, i);
      var base := FirstWritten(st, id);
      SpliceSlices(st.mem, base, Zeros(AppendStart(st, id) - base) + data, st.secs[i].offset, SectionEnd(st.secs[i]));
    }
  }

  lemma NewSectionBody(st: ImageState, id: nat, data: seq<byte>, dd: nat)
    requires id < |st.secs| && st.secs[id].size == 0 && st.secs[id].alignment > 0
    requires AppendStart(st, id) + |data| <= |st.mem|
    ensures Body(Appended(st, id, data, dd), id) == data
  {
    SpliceBehindPadding(st.mem, 0, st.size, AppendStart(st, id) - st.size, data);
  }

  lemma GrownSectionBody(st: ImageState, id: nat, data: seq<byte>, dd: nat)
    requires id < |st.secs| && st.secs[id].size != 0 && SectionEnd(st.secs[id]) + |data| <= |st.mem|
    ensures Body(Appended(st, id, data, dd), id) == Body(st, id) + data
  {
    SpliceBehindPadding(st.mem, st.secs[id].offset, SectionEnd(st.secs[id]), 0, data);
  }

  /** Every section keeps its bytes; the extended one gains exactly the data, at the offset the call
      returns, which is the section's old size. */
  lemma AppendKeepsBodies(st: ImageState, id: nat, data: seq<byte>, allocation: nat, dd: nat)
    requires CanAppend(st, id, data, allocation)
    ensures Layout(Appended(st, id, data, dd))
    ensures InImage(Appended(st, id, data, dd).secs[id], |st.mem|) && InImage(st.secs[id], |st.mem|)
    ensures Body(Appended(st, id, data, dd), id) == Body(st, id) + data
    ensures forall i :: 0 <= i < SECTIONS && i != id ==>
      Appended(st, id, data, dd).secs[i] == st.secs[i] && SectionEnd(st.secs[i]) <= |st.mem|
      && Body(Appended(st, id, data, dd), i) == Body(st, i)
  {
    AppendKeepsLayout(st, id, data, allocation, dd);
    assert InImage(st.secs[id], st.size) && Aligned(st.secs[id]);
    if st.secs[id].size == 0 {
      NewSectionBody(st, id, data, dd);
    } else {
      GrownSectionBody(st, id, data, dd);
    }
    forall i | 0 <= i < SECTIONS && i != id
      ensures Appended(st, id, data, dd).secs[i] == st.secs[i] && SectionEnd(st.secs[i]) <= |st.mem|
      ensures Body(Appended(st, id, data, dd), i) == Body(st, i)
    {
      OtherBodyKept(st, id, data, allocation, dd, i);
    }
  }

  /** All or nothing: when append reports an error, the section table, the size, the flags and every
      byte of every section are as they were. */
  lemma FailedAppendKeepsImage(st: ImageState, st': ImageState, id: int, data: seq<byte>, allocation: nat, dd: nat,
                               rc: Rc)
    requires Layout(st) && allocation <= |st.mem|
    requires AppendPost(st, st', id, data, allocation, dd, rc) && rc != Ok
    ensures Layout(st') && st' == st.(mem := st'.mem)
    ensures forall i :: 0 <= i < SECTIONS ==> SectionEnd(st.secs[i]) <= |st.mem| && Body(st', i) == Body(st, i)
  {
    forall i | 0 <= i < SECTIONS
      ensures SectionEnd(st.secs[i]) <= |st.mem| && Body(st', i) == Body(st, i)
    {
      assert InImage(st.secs[i], st.size);
      if rc == WouldOverflow && st.secs[i].size != 0 {
        FinalIsHighest(st.secs);
      }
    }
  }

  // ---- when an append succeeds, and what it writes

  /** Section id can grow where it is: it is empty, or every other section ends at or below its start. */
  ghost predicate OnTop(secs: seq<Section>, id: nat) {
    && id < |secs|
    && (secs[id].size == 0
        || forall i :: 0 <= i < |secs| && i != id && secs[i].size != 0 ==> SectionEnd(secs[i]) <= secs[id].offset)
  }

  lemma FinalIffOnTop(secs: seq<Section>, id: nat)
    requires Separate(secs) && id < |secs| && secs[id].size != 0
    ensures Final(secs) == id <==> OnTop(secs, id)
  {
    FinalIsHighest(secs);
  }

  /** Where n more bytes of the section end: behind it, or, for a new section, behind the image padded up to the
      section's alignment. */
  function NewEnd(st: ImageState, id: nat, n: nat): nat
    requires id < |st.secs| && st.secs[id].alignment > 0
  {
    if st.secs[id].size == 0 then PadTo(st.size, st.secs[id].alignment) + n else SectionEnd(st.secs[id]) + n
  }

  /** An append of data to a laid-out image succeeds if and only if the section can grow where it is and its new end,
      rounded up to 8, fits the allocation; otherwise it reports which of the two is wrong. */
  lemma AppendSucceedsIff(st: ImageState, st': ImageState, id: nat, data: seq<byte>, allocation: nat, dd: nat, rc: Rc)
    requires Layout(st) && QuickCheck(st, true) == Ok && id < SECTIONS && data != [] && allocation <= |st.mem|
    requires AppendPost(st, st', id, data, allocation, dd, rc)
    ensures st.secs[id].alignment > 0
    ensures rc == Ok <==> OnTop(st.secs, id) && FinalSize(NewEnd(st, id, |data|)) <= allocation
    ensures rc != Ok ==> rc == if OnTop(st.secs, id) then WouldOverflow else SectionError
  {
    assert Aligned(st.secs[id]);
    if st.secs[id].size != 0 {
      FinalIffOnTop(st.secs, id);
    }
  }

  /** The other answers: an error of the header check, then a section number out of range; and an append of nothing
      to any section changes nothing. */
  lemma AppendAnswers(st: ImageState, st': ImageState, id: int, data: seq<byte>, allocation: nat, dd: nat, rc: Rc)
    requires Layout(st) && allocation <= |st.mem| && AppendPost(st, st', id, data, allocation, dd, rc)
    ensures QuickCheck(st, true) != Ok ==> rc == QuickCheck(st, true) && st' == st
    ensures QuickCheck(st, true) == Ok && !(0 <= id < SECTIONS) ==> rc == InvalidArgument && st' == st
    ensures QuickCheck(st, true) == Ok && 0 <= id < SECTIONS && data == [] ==> rc == Ok && st' == st
  {
  }

  /** With 128 bytes of slack beside the data, appending to an empty or highest section succeeds. */
  lemma SlackSuffices(st: ImageState, st': ImageState, id: nat, data: seq<byte>, allocation: nat, dd: nat, rc: Rc)
    requires Layout(st) && QuickCheck(st, true) == Ok && OnTop(st.secs, id) && id < SECTIONS
    requires st.size + |data| + MAX_SECTION_ALIGNMENT <= allocation <= |st.mem|
    requires AppendPost(st, st', id, data, allocation, dd, rc)
    ensures rc == Ok
  {
    if data != [] {
      AppendSucceedsIff(st, st', id, data, allocation, dd, rc);
      assert InImage(st.secs[id], st.size) && Aligned(st.secs[id]);
      PaddingBound(st.size, st.secs[id].alignment);
    }
  }

  /** Every byte that an append leaves: zeros behind the old end up to the section's start when that is new, the
      data behind what was there of the section, and no other byte changes. */
  lemma AppendWrites(st: ImageState, id: nat, data: seq<byte>, allocation: nat, dd: nat, p: nat)
    requires CanAppend(st, id, data, allocation) && p < |st.mem|
    ensures st.secs[id].alignment > 0 && NewEnd(st, id, |data|) <= |st.mem|
    ensures var end := NewEnd(st, id, |data|);
      Appended(st, id, data, dd).mem[p] ==
        if end - |data| <= p < end then data[p - (end - |data|)]
        else if st.secs[id].size == 0 && st.size <= p < end then 0
        else st.mem[p]
  {
    assert Aligned(st.secs[id]);
    ExtendedSection(st, id, data, allocation, dd);
    var start := AppendStart(st, id);
    var base := if st.secs[id].size == 0 then st.size else start;
    SpliceBytes(st.mem, base, Zeros(start - base) + data);
  }

  /** The table entry that it leaves, the image size and the flags. */
  lemma AppendedEntry(st: ImageState, id: nat, data: seq<byte>, allocation: nat, dd: nat)
    requires CanAppend(st, id, data, allocation)
    ensures st.secs[id].alignment > 0 && NewEnd(st, id, |data|) <= |st.mem|
    ensures var s, r := st.secs[id], Appended(st, id, data, dd);
      && r.secs[id] == Section(if s.size == 0 then NewEnd(st, id, |data|) - |data| else s.offset, s.size + |data|,
                               s.alignment, dd)
      && r.size == FinalSize(NewEnd(st, id, |data|)) && r.sorted == (st.sorted && id != TOC)
      && r == st.(mem := r.mem, secs := st.secs[id := r.secs[id]], size := r.size, sorted := r.sorted)
  {
    assert Aligned(st.secs[id]);
    ExtendedSection(st, id, data, allocation, dd);
  }
}
