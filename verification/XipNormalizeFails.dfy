/** What a normalization that fails leaves behind. */
module XipNormalizeFails {
  import opened Bytes
  import opened XipTypes
  import opened XipLayout
  import opened XipToc
  import opened XipFind
  import opened XipAddress
  import opened XipNormalize
  import opened XipNormalizeSteps
  import opened XipNormalizeLaws

  /** Normalizing an entry always changes it: its name's offset in .strings is not its linked address. */
  lemma NormedDiffers(st: ImageState, e: TocEntry)
    requires Layout(st) && NormEntry(st, e).Success?
    ensures Normed(st, e) != e
  {
    NormedPlaces(st, e);
    assert Disjoint(st.secs[HEADER], st.secs[STRINGS]);
    RegionBelowLink(st.link);
  }

  lemma RegionBelowLink(link: nat)
    ensures link / U32_LIMIT % 0x1_0000 * U32_LIMIT <= link
  {
    assert link / U32_LIMIT * U32_LIMIT <= link;
  }

  /** What a failing normalization leaves: the entries before the first error are normalized and their
      records written, the others are linked. */
  lemma FailedNormalizationImage(st: ImageState, st': ImageState, rc: Rc, hash: Hash)
    requires Layout(st) && NormalizePost(st, st', rc, hash) && rc != Ok && QuickCheck(st, false) == Ok
    ensures Bounded(st') && !st'.normalized && Stop(st) <= |Toc(st')| == |Toc(st)|
    ensures forall i :: 0 <= i < |Toc(st)| ==>
      Toc(st')[i] == if i < Stop(st) then Normed(st, Toc(st)[i]) else Toc(st)[i]
    ensures FixedBefore(st, Toc(st), Stop(st)) <= |FixedToc(st')|
    ensures FixedToc(st')[..FixedBefore(st, Toc(st), Stop(st))] == RecordsBefore(st, Toc(st), Stop(st), hash)
  {
    FlagsLayout(st, st');
    NormReached(st, Stop(st), hash);
    assert Toc(st') == TocIn(st, st'.mem) && FixedToc(st') == RecordsIn(st, st'.mem);
    forall i | 0 <= i < |Toc(st)| ensures Toc(st')[i] == if i < Stop(st) then Normed(st, Toc(st)[i]) else Toc(st)[i] {
      assert Toc(st')[i] == TocIn(st, st'.mem)[i];
    }
  }

  lemma ReachedNormalizes(st: ImageState, k: nat)
    requires Layout(st) && 0 < k <= TocCount(st) && Reached(st, k)
    ensures NormEntry(st, Toc(st)[0]).Success?
  {
    CodeAt(st, 0);
    assert Codes(st)[0] == Ok;
  }

  /** So normalization is not all-or-nothing: a failing call leaves the table as it was if and only if the
      first entry is already in error. */
  lemma FailedNormalizationUndoneIff(st: ImageState, st': ImageState, rc: Rc, hash: Hash)
    requires Layout(st) && NormalizePost(st, st', rc, hash) && rc != Ok && QuickCheck(st, false) == Ok
    ensures Bounded(st') && (Toc(st') == Toc(st) <==> Stop(st) == 0)
  {
    FailedNormalizationImage(st, st', rc, hash);
    if Stop(st) > 0 {
      ReachedNormalizes(st, Stop(st));
      NormedDiffers(st, Toc(st)[0]);
      assert Toc(st')[0] != Toc(st)[0];
    }
  }

  /** A linked image at address 0 whose .toc has an entry that normalizes, name in .strings and data in .fixed, and
      one that does not, all its fields being zero. */
  function HalfwayImage(): ImageState {
    ImageState(Zeros(368) + HalfwayToc() + Zeros(8), seq(SECTIONS, i => HalfwaySection(i)), 400,
      XIP_MAGIC * U32_LIMIT, HEADER_VERSION, 0, false, false)
  }

  function HalfwaySection(i: int): Section {
    if i == HEADER then Section(0, 352, 1, 0)
    else if i == FIXED then Section(352, 8, 1, 0)
    else if i == STRINGS then Section(360, 8, 1, 0)
    else if i == TOC then Section(368, 24, 1, 0)
    else if i == FIXED_TOC then Section(392, 8, 1, 0)
    else Section(0, 0, 1, 0)
  }

  function HalfwayToc(): (b: seq<byte>)
    ensures |b| == 2 * TOC_ENTRY
  {
    TocBytes(TocEntry(360, 352, 0, 0, 0, 0)) + TocBytes(TocEntry(0, 0, 0, 0, 0, 0))
  }

  lemma HalfwayLayout()
    ensures Layout(HalfwayImage()) && QuickCheck(HalfwayImage(), false) == Ok && StringsEnd(HalfwayImage())
  {
    var st := HalfwayImage();
    ModIsRemainder(400, FINAL_ALIGNMENT);
    assert XIP_MAGIC * U32_LIMIT / U32_LIMIT == XIP_MAGIC;
    forall i | 0 <= i < SECTIONS ensures Aligned(st.secs[i]) && InImage(st.secs[i], st.size) {
      ModIsRemainder(st.secs[i].offset, 1);
    }
  }

  lemma HalfwayEntries(st: ImageState)
    requires st == HalfwayImage() && Layout(st)
    ensures TocCount(st) == 2 && RecordCount(st) == 1
    ensures Toc(st)[0] == TocEntry(360, 352, 0, 0, 0, 0) && Toc(st)[1] == TocEntry(0, 0, 0, 0, 0, 0)
  {
  }

  /** The address of a byte of a section is found in that section. */
  lemma HalfwayPlace(st: ImageState, i: nat)
    requires st == HalfwayImage() && Layout(st) && i < SECTIONS && st.secs[i].size != 0
    ensures Image2Section(st, FullAddress(st, st.secs[i].offset)) == Success(Place(i, 0))
  {
    SmallRemainder(st.secs[i].offset);
    assert InImage(st.secs[i], st.size);
    OneSectionContains(st, i, st.secs[i].offset);
  }

  lemma HalfwayNormed(st: ImageState, first: TocEntry, second: TocEntry)
    requires st == HalfwayImage() && Layout(st)
    requires first == TocEntry(360, 352, 0, 0, 0, 0) && second == TocEntry(0, 0, 0, 0, 0, 0)
    ensures NormEntry(st, first) == Success(TocEntry(0, 0, 0, FIXED as byte, 0, 0)) && NormRc(st, first, 1) == Ok
    ensures NormEntry(st, second) == Failure(ImageError)
  {
    HalfwayPlace(st, STRINGS);
    HalfwayPlace(st, FIXED);
    HalfwayPlace(st, HEADER);
  }

  /** A normalization that gets past its first entry and no further. */
  lemma StopsAtSecond(st: ImageState, hash: Hash, k: nat)
    requires Layout(st) && QuickCheck(st, false) == Ok && !st.normalized && k == 1 < TocCount(st)
    requires NormRc(st, Toc(st)[0], RecordCount(st)) == Ok && NormEntry(st, Toc(st)[k]) == Failure(ImageError)
    ensures NormalizeRc(st, hash) == ImageError && Stop(st) == k
  {
    FirstReached(st, k - 1);
    LoopStops(st, k);
  }

  /** Its normalization fails at the second entry. */
  lemma HalfwayFails(hash: Hash)
    ensures Layout(HalfwayImage()) && StringsEnd(HalfwayImage())
    ensures NormalizeRc(HalfwayImage(), hash) == ImageError && Stop(HalfwayImage()) == 1
  {
    var st := HalfwayImage();
    HalfwayLayout();
    HalfwayEntries(st);
    HalfwayNormed(st, Toc(st)[0], Toc(st)[1]);
    StopsAtSecond(st, hash, 1);
  }

  /** So a failing call can leave a table that is neither the linked nor the normalized one. */
  lemma HalfwayRewritten(st': ImageState, rc: Rc, hash: Hash)
    requires Layout(HalfwayImage()) && NormalizePost(HalfwayImage(), st', rc, hash)
    ensures rc == ImageError && Bounded(st') && !st'.normalized && Toc(st') != Toc(HalfwayImage())
  {
    HalfwayFails(hash);
    FailedNormalizationUndoneIff(HalfwayImage(), st', rc, hash);
  }
}
