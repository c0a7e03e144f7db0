/** Translation between image addresses, host addresses and (section, offset) pairs. */
module XipAddress {
  import opened Arithmetic
  import opened Bytes
  import opened XipTypes
  import opened XipLayout

  /** A section and an offset in it. */
  datatype Place = Place(section: nat, offset: nat)

  /** A 32-bit address completed with bits 16:31 of the link address. */
  function FullAddress(st: ImageState, v: u32): nat {
    st.link / U32_LIMIT % 0x1_0000 * U32_LIMIT + v
  }

  /** First section, from `from` on, that contains an image offset, or -1. */
  function SectionAt(secs: seq<Section>, at: nat, from: nat): (r: int)
    requires from <= |secs|
    ensures r == -1 <==> forall i :: from <= i < |secs| ==> !Contains(secs[i], at)
    ensures r != -1 ==> from <= r < |secs| && Contains(secs[r], at)
    ensures r != -1 ==> forall i :: from <= i < r ==> !Contains(secs[i], at)
    decreases |secs| - from
  {
    if from == |secs| then -1 else if Contains(secs[from], at) then from else SectionAt(secs, at, from + 1)
  }

  predicate Contains(s: Section, at: nat) {
    s.size != 0 && s.offset <= at < SectionEnd(s)
  }

  /** xipImage2Section. */
  function Image2Section(st: ImageState, address: nat): Result<Place> {
    if address < st.link || address > st.link + st.size then Failure(InvalidArgument)
    else
      var at := (address - st.link) % U32_LIMIT;
      var i := SectionAt(st.secs, at, 0);
      if i == -1 then Failure(ImageError) else Success(Place(i, at - st.secs[i].offset))
  }

  /** p9_xip_image2section. */
  function ImageToSection(st: ImageState, address: nat): Result<Place> {
    if QuickCheck(st, false) != Ok then Failure(QuickCheck(st, false)) else Image2Section(st, address)
  }

  /** What a translation to an image address reports, and the address if it has stored one: it does so before it
      checks that the address is a multiple of 4. */
  datatype Translation = Translation(rc: Rc, address: Option<nat>)

  function Translated(address: nat): Translation {
    Translation(if address % 4 != 0 then AlignmentError else Ok, Some(address))
  }

  /** p9_xip_section2image. The bound on the offset is the end of the section in the image, as in the source. */
  function SectionToImage(st: ImageState, section: int, offset: nat): Translation
    requires |st.secs| == SECTIONS
  {
    if QuickCheck(st, false) != Ok then Translation(QuickCheck(st, false), None)
    else if !(0 <= section < SECTIONS) then Translation(InvalidArgument, None)
    else
      var s := st.secs[section];
      if s.size == 0 then Translation(SectionError, None)
      else if offset > s.offset + s.size then Translation(InvalidArgument, None)
      else Translated(st.link + s.offset + offset)
  }

  /** p9_xip_image2host, for an image that starts at host address `base`. */
  function ImageToHost(st: ImageState, base: nat, address: nat): Result<nat> {
    if QuickCheck(st, false) != Ok then Failure(QuickCheck(st, false))
    else if address < st.link || address > st.link + st.size then Failure(InvalidArgument)
    else Success(base + (address - st.link) % U32_LIMIT)
  }

  /** p9_xip_host2image. */
  function HostToImage(st: ImageState, base: nat, host: nat): Translation {
    if QuickCheck(st, false) != Ok then Translation(QuickCheck(st, false), None)
    else if host < base || host > base + st.size then Translation(InvalidArgument, None)
    else Translated(st.link + (host - base))
  }

  /** In a valid layout at most one section contains an offset. */
  lemma OneSectionContains(st: ImageState, i: nat, at: nat)
    requires Layout(st) && i < SECTIONS && Contains(st.secs[i], at)
    ensures SectionAt(st.secs, at, 0) == i
  {
    forall j | 0 <= j < SECTIONS && j != i ensures !Contains(st.secs[j], at) {
      assert Disjoint(st.secs[i], st.secs[j]);
    }
  }

  /** A section offset for which an address is returned, aligned or not, translates back to itself if and only if
      a byte of the section is there: the check in section2image lets larger offsets through. */
  lemma SectionAddressRoundTrip(st: ImageState, section: int, offset: nat)
    requires Layout(st) && SectionToImage(st, section, offset).address.Some?
    ensures ImageToSection(st, SectionToImage(st, section, offset).address.value) == Success(Place(section, offset))
      <==> offset < st.secs[section].size
  {
    var s := st.secs[section];
    assert InImage(s, st.size);
    if s.offset + offset <= st.size {
      TranslatedBack(st, st.link + (s.offset + offset), s.offset + offset);
    }
    if offset < s.size {
      OneSectionContains(st, section, s.offset + offset);
    }
  }

  /** Every byte of every section has an address that translates back to it; an address that is no multiple of 4
      is returned too, beside the error. */
  lemma EveryByteHasAddress(st: ImageState, section: nat, offset: nat)
    requires Layout(st) && QuickCheck(st, false) == Ok && section < SECTIONS && offset < st.secs[section].size
    ensures var t := SectionToImage(st, section, offset);
      && t.address.Some? && t.rc == (if t.address.value % 4 == 0 then Ok else AlignmentError)
      && ImageToSection(st, t.address.value) == Success(Place(section, offset))
  {
    SectionAddressRoundTrip(st, section, offset);
  }

  lemma TranslatedBack(st: ImageState, address: nat, at: nat)
    requires |st.secs| == SECTIONS && QuickCheck(st, false) == Ok && at <= st.size < U32_LIMIT
    requires address == st.link + at
    ensures var i := SectionAt(st.secs, at, 0);
      ImageToSection(st, address) ==
        if i == -1 then Failure(ImageError) else Success(Place(i, at - st.secs[i].offset))
  {
    SmallRemainder(at);
  }

  lemma SmallRemainder(at: nat)
    requires at < U32_LIMIT
    ensures at % U32_LIMIT == at
  {
  }

  /** Every address that lies in a section translates to a place that translates back to it, with an
      error beside it when it is no multiple of 4. */
  lemma ImageAddressRoundTrip(st: ImageState, address: nat)
    requires Layout(st) && ImageToSection(st, address).Success?
    ensures var place := ImageToSection(st, address).value;
      && place.section < SECTIONS && place.offset < st.secs[place.section].size
      && SectionToImage(st, place.section, place.offset)
         == Translation(if address % 4 == 0 then Ok else AlignmentError, Some(address))
  {
    var place := ImageToSection(st, address).value;
    assert InImage(st.secs[place.section], st.size);
  }

  /** host2image gives back every address of the image that image2host has translated. */
  lemma HostAddressRoundTrip(st: ImageState, base: nat, address: nat)
    requires Layout(st) && QuickCheck(st, false) == Ok && st.link <= address <= st.link + st.size
    ensures ImageToHost(st, base, address).Success?
    ensures HostToImage(st, base, ImageToHost(st, base, address).value)
      == Translation(if address % 4 == 0 then Ok else AlignmentError, Some(address))
  {
    assert (address - st.link) % U32_LIMIT == address - st.link;
  }

  /** An offset past the end of a small section low in the image is accepted and lands elsewhere: the
      interface promises a byte of the section, the check compares with the section's end in the image. */
  lemma SectionToImageAcceptsTooMuch(st: ImageState, section: nat)
    requires Layout(st) && QuickCheck(st, false) == Ok && section < SECTIONS && st.secs[section].size != 0
    ensures SectionToImage(st, section, st.secs[section].size).address.Some?
    ensures ImageToSection(st, SectionToImage(st, section, st.secs[section].size).address.value)
      != Success(Place(section, st.secs[section].size))
  {
    SectionAddressRoundTrip(st, section, st.secs[section].size);
  }

  // ---- what the addresses are

  /** The address of a byte of the image, stored as its low 32 bits, is recovered when the image does not cross a
      multiple of 4 GiB and lies in the 48-bit address space. */
  lemma FullAddressRecovers(st: ImageState, at: nat)
    requires st.link < 0x1_0000 * U32_LIMIT && st.link % U32_LIMIT + at < U32_LIMIT
    ensures FullAddress(st, Low32(st.link + at)) == st.link + at
  {
    var q, r := st.link / U32_LIMIT, st.link % U32_LIMIT;
    assert st.link == q * U32_LIMIT + r;
    DivisionUnique(st.link + at, U32_LIMIT, q, r + at);
    DivisionUnique(q, 0x1_0000, 0, q);
  }

  /** The address lies in section i. */
  predicate InSection(st: ImageState, i: nat, address: nat) {
    i < |st.secs| && st.secs[i].size != 0
    && st.link + st.secs[i].offset <= address < st.link + SectionEnd(st.secs[i])
  }

  /** It lies in some section. */
  predicate Placed(st: ImageState, address: nat) {
    exists i: nat :: i < SECTIONS && InSection(st, i, address)
  }

  lemma InSectionIs(st: ImageState, i: nat, address: nat)
    requires Layout(st) && i < SECTIONS && InSection(st, i, address)
    ensures st.link <= address <= st.link + st.size && (address - st.link) % U32_LIMIT == address - st.link
    ensures SectionAt(st.secs, address - st.link, 0) == i
  {
    assert InImage(st.secs[i], st.size);
    SmallRemainder(address - st.link);
    OneSectionContains(st, i, address - st.link);
  }

  /** The section and offset of an address: those of the section that it lies in. Outside the image it is an invalid
      argument, and between sections an error. */
  lemma PlaceIs(st: ImageState, address: nat)
    requires Layout(st)
    ensures forall i {:trigger InSection(st, i, address)} :: 0 <= i < SECTIONS && InSection(st, i, address) ==>
      Image2Section(st, address) == Success(Place(i, address - st.link - st.secs[i].offset))
    ensures !(st.link <= address <= st.link + st.size) ==> Image2Section(st, address) == Failure(InvalidArgument)
    ensures st.link <= address <= st.link + st.size && !Placed(st, address) ==>
      Image2Section(st, address) == Failure(ImageError)
  {
    forall i {:trigger InSection(st, i, address)} | 0 <= i < SECTIONS && InSection(st, i, address)
      ensures Image2Section(st, address) == Success(Place(i, address - st.link - st.secs[i].offset))
    {
      InSectionIs(st, i, address);
    }
    if st.link <= address <= st.link + st.size {
      SmallRemainder(address - st.link);
      var k := SectionAt(st.secs, address - st.link, 0);
      assert k != -1 ==> InSection(st, k, address);
      assert k != -1 ==> Placed(st, address);
    }
  }

  /** The answers of section2image in the order of its checks. */
  lemma SectionToImageAnswers(st: ImageState, section: int, offset: nat)
    requires Layout(st)
    ensures var t := SectionToImage(st, section, offset);
      && (QuickCheck(st, false) != Ok ==> t == Translation(QuickCheck(st, false), None))
      && (QuickCheck(st, false) == Ok ==>
        && (!(0 <= section < SECTIONS) ==> t == Translation(InvalidArgument, None))
        && (0 <= section < SECTIONS && st.secs[section].size == 0 ==> t == Translation(SectionError, None))
        && (0 <= section < SECTIONS && st.secs[section].size != 0 ==>
              (t.address.Some? <==> offset <= SectionEnd(st.secs[section]))
              && (t.address.None? ==> t.rc == InvalidArgument)))
  {
  }

  /** An address of the image is as far from the link address as its host address from that of the image; others are
      invalid arguments, in both directions. */
  lemma HostAnswers(st: ImageState, base: nat, address: nat, host: nat)
    requires Layout(st) && QuickCheck(st, false) == Ok
    ensures ImageToHost(st, base, address) ==
      if st.link <= address <= st.link + st.size then Success(base + (address - st.link)) else Failure(InvalidArgument)
    ensures HostToImage(st, base, host).address ==
      if base <= host <= base + st.size then Some(st.link + (host - base)) else None
    ensures !(base <= host <= base + st.size) ==> HostToImage(st, base, host).rc == InvalidArgument
  {
    if st.link <= address <= st.link + st.size {
      SmallRemainder(address - st.link);
    }
  }

  /** From a section and offset to the host: the byte there is the section's. */
  lemma HostByte(st: ImageState, base: nat, section: nat, offset: nat)
    requires Layout(st) && QuickCheck(st, false) == Ok && section < SECTIONS && offset < st.secs[section].size
    ensures SectionToImage(st, section, offset).address.Some? && SectionEnd(st.secs[section]) <= |st.mem|
    ensures var host := ImageToHost(st, base, SectionToImage(st, section, offset).address.value);
      && host.Success? && base <= host.value < base + |st.mem|
      && st.mem[host.value - base] == Body(st, section)[offset]
  {
    var s := st.secs[section];
    assert InImage(s, st.size);
    HostAnswers(st, base, st.link + s.offset + offset, 0);
    SliceIndex(st.mem, s.offset, SectionEnd(s), offset);
  }
}
