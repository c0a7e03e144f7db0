/** p9_xip_validate: the checks of sizes, bounds and alignment, and then of the TOC. */
module XipValidate {
  import opened Bytes
  import opened XipTypes
  import opened XipLayout
  import opened XipAppendImpl
  import opened XipSearch
  import opened XipFind
  import opened XipFindImpl

  /** The table's fields are 32 bits wide, and no alignment is zero. */
  ghost predicate FieldsFit(st: ImageState) {
    && |st.secs| == SECTIONS && st.size < U32_LIMIT
    && forall i {:trigger st.secs[i]} :: 0 <= i < SECTIONS ==>
      st.secs[i].offset < U32_LIMIT && st.secs[i].size < U32_LIMIT && st.secs[i].alignment > 0
  }

  function SectionRc(s: Section, imageSize: nat): Rc
    requires s.alignment > 0
  {
    if !InImage(s, imageSize) then ImageError else if Mod(s.offset, s.alignment) != 0 then AlignmentError else Ok
  }

  /** The first error among the sections from i on. */
  ghost function SectionsRc(st: ImageState, i: nat): (rc: Rc)
    requires FieldsFit(st) && i <= SECTIONS
    ensures rc == Ok <==> forall k {:trigger st.secs[k]} :: i <= k < SECTIONS ==> SectionRc(st.secs[k], st.size) == Ok
    decreases SECTIONS - i
  {
    if i == SECTIONS then Ok
    else if SectionRc(st.secs[i], st.size) != Ok then SectionRc(st.secs[i], st.size)
    else SectionsRc(st, i + 1)
  }

  /** All checks but that of the TOC. */
  ghost function BoundsRc(st: ImageState, size: nat): Rc
    requires FieldsFit(st)
  {
    if QuickCheck(st, false) != Ok then QuickCheck(st, false)
    else if st.size < HEADER_SIZE then ImageError
    else if st.size != size then ImageError
    else if st.link % U32_LIMIT + st.size >= U32_LIMIT then ImageError
    else if Mod(st.size, FINAL_ALIGNMENT) != 0 then AlignmentError
    else SectionsRc(st, 0)
  }

  /** The TOC is looked at when everything else is in order and there is one to look at. */
  ghost predicate TocChecked(st: ImageState, size: nat)
    requires FieldsFit(st)
  {
    BoundsRc(st, size) == Ok && st.secs[TOC].size != 0 && st.normalized
  }

  /** The bounds and alignment checks pass exactly on images of the given size, a multiple of 8, that do not
      wrap the 32-bit address space and whose sections all lie in the image on their alignment. */
  lemma BoundsOkIff(st: ImageState, size: nat)
    requires FieldsFit(st)
    ensures BoundsRc(st, size) == Ok <==>
      && QuickCheck(st, false) == Ok && HEADER_SIZE <= st.size == size && st.link % U32_LIMIT + st.size < U32_LIMIT
      && Mod(st.size, FINAL_ALIGNMENT) == 0
      && forall i {:trigger st.secs[i]} :: 0 <= i < SECTIONS ==>
           InImage(st.secs[i], st.size) && Mod(st.secs[i].offset, st.secs[i].alignment) == 0
  {
    if BoundsRc(st, size) == Ok {
      forall i | 0 <= i < SECTIONS
        ensures InImage(st.secs[i], st.size) && Mod(st.secs[i].offset, st.secs[i].alignment) == 0
      {
        assert SectionRc(st.secs[i], st.size) == Ok;
      }
    }
  }

  /** So after them the tables can be read. */
  lemma CheckedIsBounded(st: ImageState, size: nat)
    requires FieldsFit(st) && st.size <= |st.mem| && BoundsRc(st, size) == Ok
    ensures Bounded(st)
  {
    BoundsOkIff(st, size);
    forall i | 0 <= i < SECTIONS ensures InImage(st.secs[i], st.size) {
      assert st.secs[i] == st.secs[i];
    }
  }

  /** The return code of p9_xip_validate. */
  ghost function ValidateRc(st: ImageState, size: nat, hash: Hash): Rc
    requires FieldsFit(st) && st.size <= |st.mem|
  {
    if BoundsRc(st, size) != Ok then BoundsRc(st, size)
    else if TocChecked(st, size) then
      CheckedIsBounded(st, size);
      ValidateToc(st, hash)
    else Ok
  }

  /** The 32-bit comparisons of the source, wrapped sum included, come to the section lying in the image. */
  lemma BoundsTest(offset: u32, size: u32, imageSize: u32)
    ensures offset + size > imageSize <==>
      offset > imageSize || Sum32(offset, size) > imageSize || Sum32(offset, size) < offset
  {
  }

  method CheckSections(img: XipImage) returns (rc: Rc)
    requires FieldsFit(img.State())
    ensures rc == SectionsRc(img.State(), 0)
  {
    ghost var st := img.State();
    var i := 0;
    while i < SECTIONS
      invariant 0 <= i <= SECTIONS && SectionsRc(st, 0) == SectionsRc(st, i)
    {
      var s := img.sections[i];
      assert s == st.secs[i];
      BoundsTest(s.offset, s.size, img.imageSize);
      if s.offset > img.imageSize || Sum32(s.offset, s.size) > img.imageSize || Sum32(s.offset, s.size) < s.offset {
        return ImageError;
      }
      ModIsRemainder(s.offset, s.alignment);
      if s.offset % s.alignment != 0 {
        return AlignmentError;
      }
      i := i + 1;
    }
    rc := Ok;
  }

  method CheckBounds(img: XipImage, size: u32) returns (rc: Rc)
    requires FieldsFit(img.State())
    ensures rc == BoundsRc(img.State(), size)
  {
    rc := CheckHeader(img, false);
    if rc != Ok {
      return;
    }
    var link := Low32(img.linkAddress);
    var extent := Sum32(link, img.imageSize);
    if img.imageSize < HEADER_SIZE {
      return ImageError;
    }
    if img.imageSize != size {
      return ImageError;
    }
    if extent <= link {
      return ImageError;
    }
    ModIsRemainder(img.imageSize, FINAL_ALIGNMENT);
    if img.imageSize % FINAL_ALIGNMENT != 0 {
      return AlignmentError;
    }
    rc := CheckSections(img);
  }

  method Validate(img: XipImage, size: u32, hash: Hash) returns (rc: Rc)
    requires FieldsFit(img.State()) && img.Valid()
    ensures rc == ValidateRc(img.State(), size, hash)
  {
    rc := CheckBounds(img, size);
    if rc == Ok && img.sections[TOC].size != 0 && img.normalized {
      CheckedIsBounded(img.State(), size);
      rc := MapToc(img, hash);
    }
  }

  // ---- what validation says

  /** The first section with an error decides. */
  lemma {:induction false} FirstSectionDecides(st: ImageState, from: nat, k: nat)
    requires FieldsFit(st) && from <= k < SECTIONS && SectionRc(st.secs[k], st.size) != Ok
    requires forall j {:trigger st.secs[j]} :: from <= j < k ==> SectionRc(st.secs[j], st.size) == Ok
    ensures SectionsRc(st, from) == SectionRc(st.secs[k], st.size)
    decreases k - from
  {
    if from < k {
      assert st.secs[from] == st.secs[from];
      FirstSectionDecides(st, from + 1, k);
    }
  }

  /** Section i lies in the image, on its alignment. */
  ghost predicate InPlace(st: ImageState, i: nat)
    requires FieldsFit(st) && i < SECTIONS
  {
    SectionEnd(st.secs[i]) <= st.size && Mod(st.secs[i].offset, st.secs[i].alignment) == 0
  }

  /** What the bounds checks report before they come to the sections: sizes and the address range first, then the
      alignment of the size. */
  lemma BoundsRefusals(st: ImageState, size: nat)
    requires FieldsFit(st)
    ensures QuickCheck(st, false) != Ok ==> BoundsRc(st, size) == QuickCheck(st, false)
    ensures QuickCheck(st, false) == Ok && !SizesFit(st, size) ==> BoundsRc(st, size) == ImageError
    ensures QuickCheck(st, false) == Ok && SizesFit(st, size) && Mod(st.size, FINAL_ALIGNMENT) != 0 ==>
      BoundsRc(st, size) == AlignmentError
  {
  }

  /** Then the first section that leaves the image or its alignment. */
  lemma FirstBadSection(st: ImageState, size: nat, k: nat)
    requires FieldsFit(st) && QuickCheck(st, false) == Ok && SizesFit(st, size) && Mod(st.size, FINAL_ALIGNMENT) == 0
    requires k < SECTIONS && !InPlace(st, k) && forall j {:trigger InPlace(st, j)} :: 0 <= j < k ==> InPlace(st, j)
    ensures BoundsRc(st, size) == if SectionEnd(st.secs[k]) > st.size then ImageError else AlignmentError
  {
    forall j {:trigger st.secs[j]} | 0 <= j < k ensures SectionRc(st.secs[j], st.size) == Ok {
      assert InPlace(st, j);
    }
    FirstSectionDecides(st, 0, k);
  }

  ghost predicate SizesFit(st: ImageState, size: nat) {
    HEADER_SIZE <= st.size == size && st.link % U32_LIMIT + st.size < U32_LIMIT
  }

  /** A linked image, and one without a TOC, validate as soon as the bounds checks pass. */
  lemma ValidatesWithoutToc(st: ImageState, size: nat, hash: Hash)
    requires FieldsFit(st) && st.size <= |st.mem| && BoundsRc(st, size) == Ok
    requires !st.normalized || st.secs[TOC].size == 0
    ensures ValidateRc(st, size, hash) == Ok
  {
  }

  /** A failing bounds check is what validation reports. */
  lemma BoundsFirst(st: ImageState, size: nat, hash: Hash)
    requires FieldsFit(st) && st.size <= |st.mem| && BoundsRc(st, size) != Ok
    ensures ValidateRc(st, size, hash) == BoundsRc(st, size)
  {
  }

  /** What validation reports of a checked TOC: the error of the first entry that does not decode, is not found by its
      name, or is found at another place. */
  lemma FirstBadEntry(st: ImageState, size: nat, hash: Hash, k: nat)
    requires FieldsFit(st) && Bounded(st) && BoundsRc(st, size) == Ok && st.normalized && st.secs[TOC].size != 0
    requires k < |Toc(st)|
    requires !EntryGood(st, k) && forall j {:trigger EntryGood(st, j)} :: 0 <= j < k ==> EntryGood(st, j)
    ensures var found := SearchIndex(st, Name(st, Toc(st)[k]));
      ValidateRc(st, size, hash) ==
        if Decode(st, Toc(st)[k], k).Failure? then Decode(st, Toc(st)[k], k).rc
        else if found == -1 then ItemNotFound
        else if Decode(st, Toc(st)[found], found).Failure? then Decode(st, Toc(st)[found], found).rc
        else TocError
  {
    forall j | 0 <= j < k ensures ValidateEntry(st, hash, j) == Ok {
      assert EntryGood(st, j);
      EntryAnswer(st, hash, j);
    }
    EntryAnswer(st, hash, k);
    FirstCodeDecides(EntryCodes(st, hash), 0, k);
  }

  /** Entry k decodes and is found by its name. */
  ghost predicate EntryGood(st: ImageState, k: nat)
    requires Bounded(st)
  {
    k < |Toc(st)| && Decode(st, Toc(st)[k], k).Success? && SearchIndex(st, Name(st, Toc(st)[k])) == k
  }

  lemma EntryAnswer(st: ImageState, hash: Hash, k: nat)
    requires Bounded(st) && QuickCheck(st, true) == Ok && st.secs[TOC].size != 0 && k < |Toc(st)|
    ensures var found := SearchIndex(st, Name(st, Toc(st)[k]));
      ValidateEntry(st, hash, k) ==
        if Decode(st, Toc(st)[k], k).Failure? then Decode(st, Toc(st)[k], k).rc
        else if found == -1 then ItemNotFound
        else if Decode(st, Toc(st)[found], found).Failure? then Decode(st, Toc(st)[found], found).rc
        else if found != k then TocError
        else Ok
  {
    assert Names(st)[k] == Name(st, Toc(st)[k]);
  }

  lemma {:induction false} FirstCodeDecides(codes: seq<Rc>, from: nat, k: nat)
    requires from <= k < |codes| && codes[k] != Ok && forall j :: from <= j < k ==> codes[j] == Ok
    ensures FirstError(codes, from) == codes[k]
    decreases k - from
  {
    if from < k {
      FirstCodeDecides(codes, from + 1, k);
    }
  }

  lemma LayoutFits(st: ImageState)
    requires Layout(st)
    ensures FieldsFit(st)
  {
    forall i | 0 <= i < SECTIONS
      ensures st.secs[i].offset < U32_LIMIT && st.secs[i].size < U32_LIMIT && st.secs[i].alignment > 0
    {
      assert InImage(st.secs[i], st.size) && Aligned(st.secs[i]);
    }
  }

  /** Every image that keeps the layout invariant passes the checks of its sections, and all of them if and only
      if link address and size do not wrap the 32-bit address space. */
  lemma LayoutPassesBounds(st: ImageState)
    requires Layout(st) && QuickCheck(st, false) == Ok
    ensures FieldsFit(st) && SectionsRc(st, 0) == Ok
    ensures BoundsRc(st, st.size) == Ok <==> st.link % U32_LIMIT + st.size < U32_LIMIT
  {
    LayoutFits(st);
    forall i {:trigger st.secs[i]} | 0 <= i < SECTIONS ensures SectionRc(st.secs[i], st.size) == Ok {
      assert InImage(st.secs[i], st.size) && Aligned(st.secs[i]);
    }
  }

  /** Validation is sound and complete for every image that passes the bounds checks, laid out or not: it
      succeeds exactly when the data of every entry is present and the names are strictly increasing, if the
      TOC is flagged as sorted, or distinct, if it is not. */
  lemma ValidatesIff(st: ImageState, size: nat, hash: Hash)
    requires FieldsFit(st) && st.size <= |st.mem| && BoundsRc(st, size) == Ok
    requires st.normalized && st.secs[TOC].size != 0
    ensures Bounded(st)
    ensures ValidateRc(st, size, hash) == Ok <==>
      DataPresent(st) && if st.sorted then StrictlyIncreasing(Names(st)) else Distinct(Names(st))
  {
    CheckedIsBounded(st, size);
    if ValidateToc(st, hash) == Ok {
      ValidationNeedsData(st, hash);
    }
    if DataPresent(st) {
      ValidationIffSorted(st, hash);
    }
  }
}
