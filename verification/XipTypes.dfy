/** The P9-XIP image: header fields, section table, and the memory that holds the section bodies.
    The header is kept decoded, beside the bytes; every other byte of the image lives in `mem`. */
module XipTypes {
  import opened Bytes

  const SECTIONS := 15
  const HEADER := 0
  const FIXED := 1
  const FIXED_TOC := 2
  const TOC := 3
  const STRINGS := 4

  const XIP_MAGIC := 0x58495020
  const HEADER_VERSION := 9
  const FINAL_ALIGNMENT := 8
  const MAX_SECTION_ALIGNMENT := 128
  /** Bytes of the header's fields, and of the C structure padded to its 8-byte alignment. */
  const HEADER_FIELDS := 348
  const HEADER_SIZE := 352
  const TOC_ENTRY := 12
  const HASHED_ENTRY := 8

  datatype Rc =
    | Ok
    | ImageError
    | TocError
    | ItemNotFound
    | DataNotPresent
    | InvalidArgument
    | TypeError
    | Bug
    | NotNormalized
    | SectionError
    | AlignmentError
    | WouldOverflow
    | HashCollision
    | NullBuffer
    | NoDdLevelSupport
    | DdLevelNotFound
    | DdLevelCodeBug

  datatype Option<+T> = None | Some(value: T)

  datatype Result<+T> = Success(value: T) | Failure(rc: Rc)

  /** One entry of the section table. */
  datatype Section = Section(offset: nat, size: nat, alignment: nat, ddSupport: nat)

  /** What an image is at one moment: memory, section table, recorded size and flags. */
  datatype ImageState = ImageState(
    mem: seq<byte>,
    secs: seq<Section>,
    size: nat,
    magic: nat,
    version: nat,
    link: nat,
    normalized: bool,
    sorted: bool)

  class XipImage {
    const mem: array<byte>
    var sections: seq<Section>
    var imageSize: nat
    var magic: nat
    var headerVersion: nat
    var linkAddress: nat
    var normalized: bool
    var tocSorted: bool

    ghost function State(): ImageState
      reads this, mem
    {
      ImageState(mem[..], sections, imageSize, magic, headerVersion, linkAddress, normalized, tocSorted)
    }

    /** The section table has its 15 entries and the image lies in the memory it was given. */
    ghost predicate Valid()
      reads this, mem
    {
      |sections| == SECTIONS && imageSize <= mem.Length
    }

    constructor (mem: array<byte>, header: ImageState)
      requires |header.secs| == SECTIONS && header.size <= mem.Length
      ensures Valid() && this.mem == mem
      ensures State() == header.(mem := mem[..])
    {
      this.mem := mem;
      sections := header.secs;
      imageSize := header.size;
      magic := header.magic;
      headerVersion := header.version;
      linkAddress := header.link;
      normalized := header.normalized;
      tocSorted := header.sorted;
    }
  }

  /** The magic number, header version and (when asked for) normalization check made by every entry point. */
  function QuickCheck(st: ImageState, normalizationRequired: bool): Rc {
    if st.magic / U32_LIMIT != XIP_MAGIC then ImageError
    else if st.version != HEADER_VERSION then ImageError
    else if normalizationRequired && !st.normalized then NotNormalized
    else Ok
  }

  /** The bytes of a section. */
  function Body(st: ImageState, i: nat): seq<byte>
    requires i < |st.secs| && st.secs[i].offset + st.secs[i].size <= |st.mem|
  {
    st.mem[st.secs[i].offset..st.secs[i].offset + st.secs[i].size]
  }
}
