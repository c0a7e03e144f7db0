/** p9_xip_delete_section on the image in place, with its rollback. */
module XipDeleteImpl {
  import opened Bytes
  import opened Memory
  import opened XipTypes
  import opened XipLayout
  import opened XipAppend
  import opened XipAppendImpl
  import opened XipDelete
  import opened XipRepack
  import opened XipDeleteLaws

  /** `copy` holds the header and the first st.size bytes of the image st. */
  ghost predicate IsCopy(st: ImageState, copy: ImageState) {
    st.size <= |st.mem| && st.size <= |copy.mem| && copy == st.(mem := copy.mem)
      && copy.mem[..st.size] == st.mem[..st.size]
  }

  /** memcpy of the first n bytes of an image, header included. */
  method CopyImage(dst: XipImage, src: XipImage, n: nat)
    requires dst != src && dst.mem != src.mem && HEADER_SIZE <= n <= src.mem.Length && n <= dst.mem.Length
    modifies dst, dst.mem
    ensures dst.State() == src.State().(mem := src.mem[..n] + old(dst.mem[..])[n..])
  {
    CopyInto(dst.mem, 0, src.mem[..n]);
    dst.sections := src.sections;
    dst.imageSize := src.imageSize;
    dst.magic := src.magic;
    dst.headerVersion := src.headerVersion;
    dst.linkAddress := src.linkAddress;
    dst.normalized := src.normalized;
    dst.tocSorted := src.tocSorted;
    assert dst.mem[..] == src.mem[..n] + old(dst.mem[..])[n..];
  }

  /** Section id is the final one, and not .header. */
  ghost predicate Poppable(st: ImageState, id: nat) {
    Layout(st) && st.normalized && Final(st.secs) == id != HEADER
  }

  /** Remove the final section and the padding in front of it. */
  method DeleteLastSection(img: XipImage, id: nat) returns (rc: Rc)
    requires Poppable(img.State(), id)
    modifies img
    ensures rc == Ok && img.State() == WithoutLast(old(img.State()), id)
  {
    WithoutLastSize(img.State(), id);
    ghost var st := img.State();
    img.sections := img.sections[id := Emptied(img.sections[id])];
    assert img.sections == TableWithout(st.secs, id);
    var final;
    rc, final := FinalSection(img);
    if rc != Ok {
      return;
    }
    img.imageSize := img.sections[final].offset + img.sections[final].size;
    FinalAlignment(img);
  }

  /** `done` has been popped off st so far, leaving cur; the table of 15 entries bounds the record. */
  ghost predicate Progress(st: ImageState, id: nat, cur: ImageState, done: seq<nat>) {
    && Deletable(st, id) && Deletable(cur, id)
    && Count(cur.secs) + |done| <= SECTIONS && (done == [] ==> cur == st)
    && PopTo(st, id) == Popping(PopTo(cur, id).image, done + PopTo(cur, id).order)
  }

  lemma ProgressStep(st: ImageState, id: nat, cur: ImageState, done: seq<nat>)
    requires Progress(st, id, cur, done)
    ensures Final(cur.secs) > 0 && Poppable(cur, Final(cur.secs))
    ensures Final(cur.secs) == id ==> PopTo(st, id) == Popping(WithoutLast(cur, id), done)
    ensures Final(cur.secs) != id ==>
      |done| < SECTIONS && Progress(st, id, WithoutLast(cur, Final(cur.secs)), done + [Final(cur.secs)])
  {
    FinalAboveHeader(cur, id);
    var f := Final(cur.secs);
    if f != id {
      OnePopped(cur, id, f);
      OrderGrows(done, f, PopTo(WithoutLast(cur, f), id).order);
    }
  }

  lemma OnePopped(cur: ImageState, id: nat, f: nat)
    requires Deletable(cur, id) && f == Final(cur.secs) != id
    ensures Deletable(WithoutLast(cur, f), id)
    ensures PopTo(cur, id) == Popping(PopTo(WithoutLast(cur, f), id).image, [f] + PopTo(WithoutLast(cur, f), id).order)
  {
    FinalAboveHeader(cur, id);
  }

  lemma OrderGrows(done: seq<nat>, f: nat, order: seq<nat>)
    ensures done + ([f] + order) == (done + [f]) + order
  {
  }

  /** Pop sections, highest first, down to and including the target, noting the others in `sectionOrder`. */
  method PopSections(img: XipImage, id: nat, sectionOrder: array<nat>) returns (rc: Rc, count: nat)
    requires Deletable(img.State(), id) && sectionOrder.Length == SECTIONS
    requires Final(img.sections) != id
    modifies img, sectionOrder
    ensures rc == Ok && 0 < count <= SECTIONS
    ensures PopTo(old(img.State()), id) == Popping(img.State(), sectionOrder[..count])
  {
    ghost var st := img.State();
    CountBound(st.secs, |st.secs|);
    count := 0;
    rc := Ok;
    var done := false;
    while !done
      invariant 0 <= count <= SECTIONS && rc == Ok
      invariant !done ==> Progress(st, id, img.State(), sectionOrder[..count])
      invariant done ==> count > 0 && PopTo(st, id) == Popping(img.State(), sectionOrder[..count])
      decreases !done, Count(img.sections)
    {
      rc, count, done := PopTurn(img, id, sectionOrder, count, st);
    }
  }

  /** Remove the final section, and note it unless it is the target. */
  method PopTurn(img: XipImage, id: nat, sectionOrder: array<nat>, count: nat, ghost st: ImageState)
      returns (rc: Rc, count': nat, done: bool)
    requires count <= sectionOrder.Length == SECTIONS && Progress(st, id, img.State(), sectionOrder[..count])
    requires Final(st.secs) != id
    modifies img, sectionOrder
    ensures rc == Ok && count <= count' <= SECTIONS
    ensures done ==> 0 < count' && PopTo(st, id) == Popping(img.State(), sectionOrder[..count'])
    ensures !done ==>
      Progress(st, id, img.State(), sectionOrder[..count']) && Count(img.sections) < old(Count(img.sections))
  {
    ghost var cur, order := img.State(), sectionOrder[..count];
    ProgressStep(st, id, cur, order);
    FinalAboveHeader(cur, id);
    count', done := count, false;
    var final;
    rc, final := FinalSection(img);
    if rc != Ok {
      return;
    }
    if final == HEADER {
      return SectionError, count, false;
    }
    if final != id {
      sectionOrder[count] := final;
      count' := count + 1;
      assert sectionOrder[..count'] == order + [final];
      assert img.State() == cur;
    }
    rc := DeleteLastSection(img, final);
    done := final == id;
  }

  lemma {:induction false} CountBound(secs: seq<Section>, n: nat)
    requires n <= |secs|
    ensures Present(secs, n) <= n
  {
    if n > 0 {
      CountBound(secs, n - 1);
    }
  }

  /** The rebuild so far: cur is a valid image from which the sections in `rest` are still to be appended. */
  ghost predicate Remaining(saved: ImageState, cur: ImageState, rest: seq<nat>, outcome: Outcome) {
    && Layout(saved) && Layout(cur) && |cur.mem| == |saved.mem| && cur.size <= saved.size
    && cur.mem[saved.size..] == saved.mem[saved.size..]
    && Lends(saved, rest) && Reappend(cur, saved, rest) == outcome
  }

  /** Memory past the saved size is out of reach of every append whose allocation is that size. */
  lemma BeyondUntouched(st: ImageState, st': ImageState, id: nat, data: seq<byte>, allocation: nat, dd: nat, rc: Rc)
    requires Layout(st) && id < SECTIONS && data != [] && st.size <= allocation <= |st.mem| && allocation < U32_LIMIT
    requires AppendPost(st, st', id, data, allocation, dd, rc)
    ensures |st'.mem| == |st.mem| && st'.mem[allocation..] == st.mem[allocation..]
  {
    if rc == Ok {
      var start, base := AppendStart(st, id), FirstWritten(st, id);
      ExtendedSection(st, id, data, allocation, dd);
      SpliceSlices(st.mem, base, Zeros(start - base) + data, allocation, |st.mem|);
    }
  }

  lemma RemainingStep(saved: ImageState, cur: ImageState, rest: seq<nat>, k: nat, outcome: Outcome, next: ImageState,
                      rc: Rc)
    requires Remaining(saved, cur, rest, outcome) && rest != [] && k == rest[|rest| - 1]
    requires SectionEnd(saved.secs[k]) <= |saved.mem|
    requires AppendPost(cur, next, k, Body(saved, k), saved.size, saved.secs[k].ddSupport, rc)
    ensures rc == Ok ==> Remaining(saved, next, rest[..|rest| - 1], outcome)
    ensures rc != Ok ==> outcome.rc == rc
    ensures |next.mem| == |saved.mem| && next.mem[saved.size..] == saved.mem[saved.size..]
  {
    LentBody(saved, k);
    BeyondUntouched(cur, next, k, Body(saved, k), saved.size, saved.secs[k].ddSupport, rc);
    if rc == Ok {
      AppendFromWorks(cur, saved, k);
    }
  }

  /** Append the recorded sections again in the reverse of the order in which they were popped. */
  method ReappendSections(img: XipImage, buf: XipImage, sectionOrder: array<nat>, count: nat, ghost saved: ImageState)
      returns (rc: Rc)
    requires buf != img && buf.mem != img.mem && 0 < count <= sectionOrder.Length
    requires Layout(saved) && IsCopy(saved, buf.State())
      && RebuildSumsFit(saved.size)
    requires Lends(saved, sectionOrder[..count]) && Layout(img.State()) && |saved.mem| == img.mem.Length
    requires img.imageSize <= saved.size && img.mem[saved.size..] == saved.mem[saved.size..]
    modifies img, img.mem
    ensures var o := Reappend(old(img.State()), saved, sectionOrder[..count]);
      rc == o.rc && (rc == Ok ==> img.State() == o.image)
    ensures img.mem[saved.size..] == saved.mem[saved.size..]
  {
    ghost var outcome := Reappend(img.State(), saved, sectionOrder[..count]);
    var orderIdx := count;
    rc := Ok;
    while rc == Ok && orderIdx > 0
      invariant 0 <= orderIdx <= count && img.mem[saved.size..] == saved.mem[saved.size..]
      invariant rc == Ok ==> Remaining(saved, img.State(), sectionOrder[..orderIdx], outcome)
      invariant rc != Ok ==> outcome.rc == rc
      decreases orderIdx
    {
      orderIdx := orderIdx - 1;
      rc := ReappendTurn(img, buf, sectionOrder[orderIdx], saved, sectionOrder[..orderIdx + 1], outcome);
      assert sectionOrder[..orderIdx + 1][..orderIdx] == sectionOrder[..orderIdx];
    }
  }

  /** Append section k, the last one of those that remain, from the copy. */
  method ReappendTurn(img: XipImage, buf: XipImage, k: nat, ghost saved: ImageState, ghost rest: seq<nat>,
                      ghost outcome: Outcome)
      returns (rc: Rc)
    requires buf != img && buf.mem != img.mem && rest != [] && k == rest[|rest| - 1]
    requires IsCopy(saved, buf.State()) && RebuildSumsFit(saved.size)
    requires Remaining(saved, img.State(), rest, outcome)
    modifies img, img.mem
    ensures rc == Ok ==> Remaining(saved, img.State(), rest[..|rest| - 1], outcome)
    ensures rc != Ok ==> outcome.rc == rc
    ensures img.mem[saved.size..] == saved.mem[saved.size..]
  {
    ghost var cur := img.State();
    LentBody(saved, k);
    var section := buf.sections[k];
    CopiedBody(saved, buf.State(), k);
    var data := buf.mem[section.offset..section.offset + section.size];
    NoWrapHere(cur, saved, k);
    var placed;
    rc, placed := Append(img, k, Some(data), section.size, buf.imageSize, section.ddSupport);
    RemainingStep(saved, cur, rest, k, outcome, img.State(), rc);
  }

  lemma CopiedBody(st: ImageState, copy: ImageState, k: nat)
    requires Layout(st) && IsCopy(st, copy) && k < SECTIONS
    ensures SectionEnd(st.secs[k]) <= st.size && Body(copy, k) == Body(st, k)
  {
    assert InImage(st.secs[k], st.size);
    var lo, hi := st.secs[k].offset, SectionEnd(st.secs[k]);
    PrefixSlice(copy.mem, st.size, lo, hi);
    PrefixSlice(st.mem, st.size, lo, hi);
  }

  lemma NoWrapHere(cur: ImageState, saved: ImageState, k: nat)
    requires Layout(cur) && Layout(saved) && cur.size <= saved.size && k < SECTIONS
    requires RebuildSumsFit(saved.size)
    ensures NoWrap(cur, k, saved.secs[k].size)
  {
    assert InImage(cur.secs[k], cur.size) && InImage(saved.secs[k], saved.size) && Aligned(cur.secs[k]);
  }

  /** Delete an in-between section: pop down to it, append the rest again, and restore the image from the
      saved copy if an append fails. */
  method DeleteInBetween(img: XipImage, buf: XipImage, id: nat) returns (rc: Rc)
    requires buf != img && buf.mem != img.mem && Deletable(img.State(), id) && Final(img.sections) != id
    requires IsCopy(img.State(), buf.State())
      && RebuildSumsFit(img.imageSize)
    modifies img, img.mem
    ensures var o := Rebuilt(old(img.State()), id);
      rc == o.rc && img.State() == if rc == Ok then o.image else old(img.State())
  {
    ghost var st := img.State();
    ReadyToRebuild(st, id);
    var sectionOrder := new nat[SECTIONS];
    var count;
    rc, count := PopSections(img, id, sectionOrder);
    rc := ReappendSections(img, buf, sectionOrder, count, st);
    if rc != Ok {
      ghost var now := img.mem[..];
      CopyImage(img, buf, buf.imageSize);
      BothParts(st.mem, buf.mem[..], now, st.size);
    }
  }

  /** The copied part with what lies beyond it is the whole memory. */
  lemma BothParts(m: seq<byte>, copy: seq<byte>, now: seq<byte>, n: nat)
    requires n <= |m| && n <= |copy| && n <= |now| && copy[..n] == m[..n] && now[n..] == m[n..]
    ensures copy[..n] + now[n..] == m
  {
  }

  /** Delete any section but .header. The 32-bit sums of the re-appends, when it comes to these, must not wrap. */
  method DeleteSection(img: XipImage, buf: XipImage?, bufSize: nat, id: int) returns (rc: Rc)
    requires Layout(img.State())
    requires buf != null ==> buf != img && buf.mem != img.mem && bufSize <= buf.mem.Length
    requires DeleteAllowed(img.State(), buf != null, id)
    modifies img, img.mem, buf, if buf == null then {} else {buf.mem}
    ensures Outcome(rc, img.State()) == DeleteOutcome(old(img.State()), buf != null, bufSize, id)
    ensures buf != null && bufSize >= old(img.imageSize) && id != HEADER ==> IsCopy(old(img.State()), buf.State())
  {
    ghost var st := img.State();
    if buf != null && bufSize < img.imageSize {
      return WouldOverflow;
    }
    if id == HEADER {
      return SectionError;
    }
    if buf != null {
      CopyImage(buf, img, img.imageSize);
    }
    rc := CheckHeader(img, true);
    if rc != Ok {
      return;
    }
    if !(0 <= id < SECTIONS) {
      return InvalidArgument;
    }
    if img.sections[id].size == 0 {
      return;
    }
    var final;
    rc, final := FinalSection(img);
    if rc == Ok {
      if final == id {
        rc := DeleteLastSection(img, id);
      } else if buf == null {
        rc := NullBuffer;
      } else {
        rc := DeleteInBetween(img, buf, id);
      }
    }
  }
}
