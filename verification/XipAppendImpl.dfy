/** p9_xip_append and its helpers, on the image in place. */
module XipAppendImpl {
  import opened Bytes
  import opened Memory
  import opened XipTypes
  import opened XipLayout
  import opened XipAppend

  /** The check that opens every entry point. */
  method CheckHeader(img: XipImage, normalizationRequired: bool) returns (rc: Rc)
    ensures rc == QuickCheck(img.State(), normalizationRequired)
  {
    if img.magic / U32_LIMIT != XIP_MAGIC {
      return ImageError;
    }
    if img.headerVersion != HEADER_VERSION {
      return ImageError;
    }
    if normalizationRequired && !img.normalized {
      return NotNormalized;
    }
    return Ok;
  }

  /** Find the final (highest-address) section. */
  method FinalSection(img: XipImage) returns (rc: Rc, section: int)
    ensures rc == (if Final(img.sections) < 0 then ImageError else Ok)
    ensures rc == Ok ==> section == Final(img.sections)
  {
    var found, offset := false, 0;
    section := 0;
    for i := 0 to |img.sections|
      invariant found <==> FinalUpTo(img.sections, i) >= 0
      invariant found ==> section == FinalUpTo(img.sections, i) && offset == img.sections[section].offset
      invariant !found ==> offset == 0
    {
      if img.sections[i].size != 0 && img.sections[i].offset >= offset {
        section := i;
        offset := img.sections[i].offset;
        found := true;
      }
    }
    rc := if found then Ok else ImageError;
  }

  /** Re-establish the final alignment; the size may move past the memory, so the caller checks it. */
  method FinalAlignment(img: XipImage)
    modifies img`imageSize
    ensures img.imageSize == FinalSize(old(img.imageSize))
  {
    var size := img.imageSize;
    ModIsRemainder(size, FINAL_ALIGNMENT);
    if size % FINAL_ALIGNMENT != 0 {
      img.imageSize := size + (FINAL_ALIGNMENT - size % FINAL_ALIGNMENT);
    }
  }

  /** Pad the image with zeros to a power-of-two alignment, unless that leaves the allocation. */
  method PadImage(img: XipImage, allocation: nat, align: nat) returns (rc: Rc)
    requires allocation <= img.mem.Length && img.imageSize + align <= U32_LIMIT
    modifies img`imageSize, img.mem
    ensures rc == (if !PowerOfTwo(align) then InvalidArgument
                   else if PadTo(old(img.imageSize), align) != old(img.imageSize)
                           && PadTo(old(img.imageSize), align) > allocation then WouldOverflow
                   else Ok)
    ensures rc != Ok ==> img.imageSize == old(img.imageSize) && img.mem[..] == old(img.mem[..])
    ensures rc == Ok ==> img.imageSize == PadTo(old(img.imageSize), align)
    ensures rc == Ok && img.imageSize == old(img.imageSize) ==> img.mem[..] == old(img.mem[..])
    ensures rc == Ok && img.imageSize != old(img.imageSize) ==>
      img.imageSize <= allocation &&
      img.mem[..] == Splice(old(img.mem[..]), old(img.imageSize), Zeros(img.imageSize - old(img.imageSize)))
  {
    if !PowerOfTwo(align) {
      return InvalidArgument;
    }
    ModIsRemainder(img.imageSize, align);
    var pad := img.imageSize % align;
    if pad != 0 {
      pad := align - pad;
      if img.imageSize + pad > allocation {
        return WouldOverflow;
      }
      Clear(img.mem, img.imageSize, pad);
      img.imageSize := img.imageSize + pad;
    }
    return Ok;
  }

  /** The bytes an append stores: the data, or zeros when the caller passes none. */
  function Payload(data: Option<seq<byte>>, n: nat): (d: seq<byte>)
    requires data.Some? ==> |data.value| == n
    ensures |d| == n && (data.Some? ==> d == data.value)
    ensures data.None? ==> forall i :: 0 <= i < n ==> d[i] == 0
  {
    if data.Some? then data.value else Zeros(n)
  }

  /** An append without data extends its section by zeros. */
  lemma ZerosAppended(st: ImageState, id: nat, n: nat, allocation: nat, dd: nat)
    requires CanAppend(st, id, Payload(None, n), allocation)
    ensures Layout(Appended(st, id, Payload(None, n), dd)) && InImage(st.secs[id], |st.mem|)
    ensures var r := Appended(st, id, Payload(None, n), dd);
      && InImage(r.secs[id], |r.mem|) && |Body(r, id)| == st.secs[id].size + n
      && Body(r, id)[..st.secs[id].size] == Body(st, id)
      && forall i :: st.secs[id].size <= i < st.secs[id].size + n ==> Body(r, id)[i] == 0
  {
    AppendKeepsBodies(st, id, Payload(None, n), allocation, dd);
  }

  /** Return code of the first half of the append. */
  function OpenRc(st: ImageState, id: nat, allocation: nat): Rc
    requires id < |st.secs|
  {
    var s := st.secs[id];
    if s.size == 0 && !PowerOfTwo(s.alignment) then InvalidArgument
    else if s.size == 0 && AppendStart(st, id) != st.size && AppendStart(st, id) > allocation then WouldOverflow
    else if s.size != 0 && Final(st.secs) != id then SectionError
    else Ok
  }

  /** With that of the second half it is the return code of the append. */
  lemma HalvesMakeRc(st: ImageState, id: nat, n: nat, allocation: nat)
    requires id < SECTIONS == |st.secs| && n > 0 && QuickCheck(st, true) == Ok
    requires st.secs[id].size == 0 && OpenRc(st, id, allocation) != InvalidArgument ==> st.secs[id].alignment > 0
    ensures OpenRc(st, id, allocation) != Ok ==> AppendRc(st, id, n, allocation) == OpenRc(st, id, allocation)
    ensures OpenRc(st, id, allocation) == Ok ==>
      AppendRc(st, id, n, allocation) == if FinalSize(AppendStart(st, id) + n) > allocation then WouldOverflow else Ok
  {
  }

  lemma SameIsRestored(st: ImageState, allocation: nat, from: nat)
    ensures Restored(st, st, from, allocation)
  {
  }

  /** First half of the append: pad the image for an empty section, or drop the padding behind the
      final one, so that the image ends where the data goes. */
  method OpenSection(img: XipImage, id: nat, allocation: u32) returns (rc: Rc, section: Section)
    requires img.Valid() && allocation <= img.mem.Length && id < SECTIONS
    requires NoWrap(img.State(), id, 0)
    modifies img`imageSize, img.mem
    ensures rc == OpenRc(old(img.State()), id, allocation)
    ensures rc != Ok ==> img.State() == old(img.State())
    ensures rc == Ok ==>
      var st := old(img.State());
      && img.imageSize == AppendStart(st, id)
      && section == st.secs[id].(offset := img.imageSize - st.secs[id].size)
      && FirstWritten(st, id) <= img.imageSize <= img.mem.Length
      && (img.imageSize == FirstWritten(st, id) || img.imageSize <= allocation)
      && img.mem[..] == Splice(st.mem, FirstWritten(st, id), Zeros(img.imageSize - FirstWritten(st, id)))
  {
    section := img.sections[id];
    if section.size == 0 {
      rc := PadImage(img, allocation, section.alignment);
      section := section.(offset := img.imageSize);
    } else {
      var final;
      rc, final := FinalSection(img);
      if rc != Ok {
        return;
      }
      if final != id {
        return SectionError, section;
      }
      img.imageSize := section.offset + section.size;
    }
  }

  /** Second half: store the data where the image now ends, and commit it if it fits with its final alignment. */
  method PlaceData(img: XipImage, id: nat, entry: Section, data: Option<seq<byte>>, n: u32, allocation: u32, dd: nat,
                   initialSize: nat, ghost st: ImageState) returns (rc: Rc)
    requires img.Valid() && allocation <= img.mem.Length == |st.mem| && id < |st.secs| == SECTIONS && n > 0
    requires data.Some? ==> |data.value| == n
    requires initialSize == st.size && (st.secs[id].size == 0 ==> st.secs[id].alignment > 0)
    requires FirstWritten(st, id) <= AppendStart(st, id) <= |st.mem|
    requires AppendStart(st, id) == FirstWritten(st, id) || AppendStart(st, id) <= allocation
    requires entry == st.secs[id].(offset := AppendStart(st, id) - st.secs[id].size)
    requires img.State() == st.(size := AppendStart(st, id),
      mem := Splice(st.mem, FirstWritten(st, id), Zeros(AppendStart(st, id) - FirstWritten(st, id))))
    modifies img, img.mem
    ensures rc == if FinalSize(AppendStart(st, id) + n) > allocation then WouldOverflow else Ok
    ensures rc == Ok ==> img.State() == Appended(st, id, Payload(data, n), dd)
    ensures rc != Ok ==> Restored(st, img.State(), FirstWritten(st, id), allocation)
  {
    var start := img.imageSize;
    ghost var from, payload := FirstWritten(st, id), Payload(data, n);
    if start + n > allocation {
      img.imageSize := initialSize;
      OverflowRestores(st, from, Zeros(start - from), allocation);
      assert img.State() == st.(mem := Splice(st.mem, from, Zeros(start - from)));
      return WouldOverflow;
    }
    Store(img.mem, start, data, n);
    SpliceTwice(st.mem, from, Zeros(start - from), payload);
    assert img.mem[..] == Splice(st.mem, from, Zeros(start - from) + payload);
    rc := Commit(img, id, entry, n, allocation, dd, initialSize, st, payload);
  }

  /** Record the n bytes just stored in the size and the section table, or restore the size. */
  method Commit(img: XipImage, id: nat, entry: Section, n: u32, allocation: u32, dd: nat,
                initialSize: nat, ghost st: ImageState, ghost payload: seq<byte>) returns (rc: Rc)
    requires img.Valid() && allocation <= |st.mem| && id < |st.secs| == SECTIONS && n == |payload|
    requires initialSize == st.size && (st.secs[id].size == 0 ==> st.secs[id].alignment > 0)
    requires FirstWritten(st, id) <= AppendStart(st, id) && AppendStart(st, id) + n <= allocation
    requires entry == st.secs[id].(offset := AppendStart(st, id) - st.secs[id].size)
    requires img.State() == st.(size := AppendStart(st, id),
      mem := Splice(st.mem, FirstWritten(st, id), Zeros(AppendStart(st, id) - FirstWritten(st, id)) + payload))
    modifies img
    ensures rc == if FinalSize(AppendStart(st, id) + n) > allocation then WouldOverflow else Ok
    ensures rc == Ok ==> img.State() == Appended(st, id, payload, dd)
    ensures rc != Ok ==> Restored(st, img.State(), FirstWritten(st, id), allocation)
  {
    img.imageSize := img.imageSize + n;
    FinalAlignment(img);
    if img.imageSize > allocation {
      img.imageSize := initialSize;
      OverflowRestores(st, FirstWritten(st, id), Zeros(AppendStart(st, id) - FirstWritten(st, id)) + payload,
        allocation);
      return WouldOverflow;
    }
    img.sections := img.sections[id := entry.(size := entry.size + n, ddSupport := dd)];
    if id == TOC {
      img.tocSorted := false;
    }
    return Ok;
  }

  /** Bytes written from `from` on, inside the allocation, leave the image as it was up to there. */
  lemma OverflowRestores(st: ImageState, from: nat, d: seq<byte>, allocation: nat)
    requires from + |d| <= |st.mem| && (d == [] || from + |d| <= allocation)
    ensures Restored(st, st.(mem := Splice(st.mem, from, d)), from, allocation)
  {
    SpliceBytes(st.mem, from, d);
  }

  /** The append itself, once the image and the section number have been checked and there is data. */
  method Extend(img: XipImage, id: nat, data: Option<seq<byte>>, n: u32, allocation: u32, dd: nat) returns (rc: Rc)
    requires img.Valid() && allocation <= img.mem.Length && id < SECTIONS && n > 0
    requires data.Some? ==> |data.value| == n
    requires NoWrap(img.State(), id, n) && QuickCheck(img.State(), true) == Ok
    modifies img, img.mem
    ensures AppendPost(old(img.State()), img.State(), id, Payload(data, n), allocation, dd, rc)
  {
    var initialSize := img.imageSize;
    ghost var st := img.State();
    var section;
    rc, section := OpenSection(img, id, allocation);
    if rc == Ok {
      rc := PlaceData(img, id, section, data, n, allocation, dd, initialSize, st);
    }
    HalvesMakeRc(st, id, n, allocation);
    SameIsRestored(st, allocation, FirstWritten(st, id));
  }

  /** Append n bytes to a section that is empty or final. The 32-bit sums of the source must not wrap. */
  method Append(img: XipImage, id: int, data: Option<seq<byte>>, n: u32, allocation: u32, dd: nat)
      returns (rc: Rc, sectionOffset: nat)
    requires img.Valid() && allocation <= img.mem.Length
    requires data.Some? ==> |data.value| == n
    requires NoWrap(img.State(), id, n)
    modifies img, img.mem
    ensures img.Valid()
    ensures AppendPost(old(img.State()), img.State(), id, Payload(data, n), allocation, dd, rc)
    ensures rc == Ok && n > 0 ==> sectionOffset == old(img.sections)[id].size
  {
    sectionOffset := 0;
    rc := CheckHeader(img, true);
    if rc == Ok {
      if !(0 <= id < SECTIONS) {
        rc := InvalidArgument;
      } else if n > 0 {
        sectionOffset := img.sections[id].size;
        rc := Extend(img, id, data, n, allocation, dd);
      }
    }
  }

  /** Copy the data, or clear the space when there is none. */
  method Store(mem: array<byte>, at: nat, data: Option<seq<byte>>, n: nat)
    requires data.Some? ==> |data.value| == n
    requires at + n <= mem.Length
    modifies mem
    ensures mem[..] == Splice(old(mem[..]), at, Payload(data, n))
  {
    match data {
      case None => Clear(mem, at, n);
      case Some(d) => CopyInto(mem, at, d);
    }
  }
}
