/** The address translators on the image in memory. */
module XipAddressImpl {
  import opened Bytes
  import opened XipTypes
  import opened XipAppendImpl
  import opened XipAddress

  /** Translate an image address to a section and offset by scanning the section table. */
  method FindPlace(img: XipImage, address: nat) returns (r: Result<Place>)
    ensures r == Image2Section(img.State(), address)
  {
    if address < img.linkAddress || address > img.linkAddress + img.imageSize {
      return Failure(InvalidArgument);
    }
    var at := (address - img.linkAddress) % U32_LIMIT;
    var i := 0;
    while i < |img.sections| && !(img.sections[i].size != 0 && at >= img.sections[i].offset
                                  && at < img.sections[i].offset + img.sections[i].size)
      invariant 0 <= i <= |img.sections|
      invariant SectionAt(img.sections, at, 0) == SectionAt(img.sections, at, i)
    {
      i := i + 1;
    }
    if i == |img.sections| {
      return Failure(ImageError);
    }
    return Success(Place(i, at - img.sections[i].offset));
  }

  /** p9_xip_image2section. */
  method TranslateAddress(img: XipImage, address: nat) returns (r: Result<Place>)
    ensures r == ImageToSection(img.State(), address)
  {
    var rc := CheckHeader(img, false);
    if rc != Ok {
      return Failure(rc);
    }
    r := FindPlace(img, address);
  }

  /** p9_xip_section2image: the address is stored before its alignment is checked. */
  method SectionAddress(img: XipImage, section: int, offset: nat) returns (rc: Rc, address: Option<nat>)
    requires |img.sections| == SECTIONS
    ensures Translation(rc, address) == SectionToImage(img.State(), section, offset)
  {
    address := None;
    rc := CheckHeader(img, false);
    if rc != Ok {
      return;
    }
    if !(0 <= section < SECTIONS) {
      return InvalidArgument, None;
    }
    var s := img.sections[section];
    if s.size == 0 {
      return SectionError, None;
    }
    if offset > s.offset + s.size {
      return InvalidArgument, None;
    }
    address := Some(img.linkAddress + s.offset + offset);
    if address.value % 4 != 0 {
      rc := AlignmentError;
    }
  }

  /** p9_xip_image2host, for an image at host address `base`. */
  method HostAddress(img: XipImage, base: nat, address: nat) returns (r: Result<nat>)
    ensures r == ImageToHost(img.State(), base, address)
  {
    var rc := CheckHeader(img, false);
    if rc != Ok {
      return Failure(rc);
    }
    if address < img.linkAddress || address > img.linkAddress + img.imageSize {
      return Failure(InvalidArgument);
    }
    return Success(base + Low32(address - img.linkAddress));
  }

  /** p9_xip_host2image. */
  method ImageAddress(img: XipImage, base: nat, host: nat) returns (rc: Rc, address: Option<nat>)
    ensures Translation(rc, address) == HostToImage(img.State(), base, host)
  {
    address := None;
    rc := CheckHeader(img, false);
    if rc != Ok {
      return;
    }
    if host < base || host > base + img.imageSize {
      return InvalidArgument, None;
    }
    address := Some(img.linkAddress + (host - base));
    if address.value % 4 != 0 {
      rc := AlignmentError;
    }
  }
}
