/** p9_xip_get_section: a section, or the block that a DD container in it holds for one level. */
module XipDdSection {
  import opened Bytes
  import opened XipTypes
  import opened XipLayout
  import opened XipAppend
  import opened XipRepack
  import opened XipDeleteLaws
  import D = DdContainer
  import L = DdContainerLaws
  import DdContainerImpl

  /** The level that asks for the whole section. */
  const UNDEFINED_DD_LEVEL: byte := 0xff

  datatype SectionLookup = SectionLookup(rc: Rc, section: Section)

  /** The table entry, or what the caller's structure held when there is no such section. */
  function TableEntry(st: ImageState, id: int, given: Section): Section
    requires |st.secs| == SECTIONS
  {
    if 0 <= id < SECTIONS then st.secs[id] else given
  }

  /** When a level is asked for, a container header can be read at the section's offset. */
  ghost predicate LevelReadable(st: ImageState, s: Section, level: byte) {
    level != UNDEFINED_DD_LEVEL && s.ddSupport == 1 ==> s.offset <= |st.mem| && D.Readable(st.mem[s.offset..])
  }

  function LevelRc(rc: D.DdRc): Rc {
    match rc
    case LevelNotFound => DdLevelNotFound
    case DoesNotExist => NullBuffer
    case MagicNotFound => NoDdLevelSupport
    case _ => DdLevelCodeBug
  }

  /** p9_xip_get_section. A level lookup overrides the code for a section number that is out of range. */
  ghost function GetSection(st: ImageState, id: int, given: Section, level: byte): SectionLookup
    requires |st.secs| == SECTIONS && LevelReadable(st, TableEntry(st, id, given), level)
  {
    var s := TableEntry(st, id, given);
    if level == UNDEFINED_DD_LEVEL then SectionLookup(if 0 <= id < SECTIONS then Ok else InvalidArgument, s)
    else if s.ddSupport != 1 then SectionLookup(InvalidArgument, s)
    else
      match D.Get(st.mem[s.offset..], level)
      case Found(offset, size) => SectionLookup(Ok, Section(Low32(s.offset + offset), size, 0, 0))
      case Missing(rc) => SectionLookup(LevelRc(rc), s)
  }

  method ReadSection(img: XipImage, id: int, given: Section, level: byte) returns (rc: Rc, section: Section)
    requires img.Valid() && LevelReadable(img.State(), TableEntry(img.State(), id, given), level)
    ensures SectionLookup(rc, section) == GetSection(img.State(), id, given, level)
  {
    rc, section := Ok, given;
    if 0 <= id < SECTIONS {
      section := img.sections[id];
    } else {
      rc := InvalidArgument;
    }
    if level == UNDEFINED_DD_LEVEL {
      return;
    }
    if section.ddSupport == 1 {
      assert img.mem[..][section.offset..] == img.mem[section.offset..];
      var found := DdContainerImpl.GetBlock(img.mem, section.offset, level);
      match found {
        case Found(offset, size) =>
          rc, section := Ok, Section(Low32(section.offset + offset), size, 0, 0);
        case Missing(code) =>
          rc := LevelRc(code);
      }
    } else {
      rc := InvalidArgument;
    }
  }

  /** The whole of a section that is there: Ok and the image's own table entry, which describes the section's bytes,
      whatever the caller's structure held. */
  lemma WholeSection(st: ImageState, id: nat, given: Section)
    requires Layout(st) && id < SECTIONS
    ensures var found := GetSection(st, id, given, 0xff);
      && found.rc == Ok && found.section == st.secs[id]
      && SectionEnd(found.section) <= |st.mem|
      && st.mem[found.section.offset..SectionEnd(found.section)] == Body(st, id)
  {
    assert InImage(st.secs[id], st.size);
  }

  /** A level of a section without DD support is an invalid argument. */
  lemma NoSupport(st: ImageState, id: nat, given: Section, level: byte)
    requires |st.secs| == SECTIONS && id < SECTIONS && level != UNDEFINED_DD_LEVEL && st.secs[id].ddSupport != 1
    ensures GetSection(st, id, given, level) == SectionLookup(InvalidArgument, st.secs[id])
  {
  }

  /** A level of a section with DD support that does not start with a container has none. */
  lemma NoContainer(st: ImageState, id: nat, given: Section, level: byte)
    requires |st.secs| == SECTIONS && id < SECTIONS && level != UNDEFINED_DD_LEVEL && st.secs[id].ddSupport == 1
    requires LevelReadable(st, st.secs[id], level) && !D.HasMagic(st.mem[st.secs[id].offset..])
    ensures GetSection(st, id, given, level) == SectionLookup(NoDdLevelSupport, st.secs[id])
  {
  }

  /** A section number that is out of range is reported exactly when the whole section is asked for or the caller's
      structure has no DD support: otherwise the lookup in what that structure describes decides. */
  lemma OutOfRangeReported(st: ImageState, id: int, given: Section, level: byte)
    requires |st.secs| == SECTIONS && !(0 <= id < SECTIONS) && LevelReadable(st, given, level)
    ensures GetSection(st, id, given, level).rc == InvalidArgument <==>
      level == UNDEFINED_DD_LEVEL || given.ddSupport != 1
  {
  }

  // ---- sections that hold a container

  /** Section id supports DD levels and holds a container of these blocks. */
  ghost predicate DdSection(st: ImageState, id: nat, blocks: seq<L.Block>) {
    && Layout(st) && id < SECTIONS && st.secs[id].ddSupport == 1 && SectionEnd(st.secs[id]) <= st.size
    && L.Holds(Body(st, id), blocks)
  }

  /** A container is read the same whatever follows it in memory. */
  lemma HoldsWithTail(m: seq<byte>, m': seq<byte>, blocks: seq<L.Block>)
    requires L.Holds(m, blocks) && |m| <= |m'| && forall p :: 0 <= p < |m| ==> m'[p] == m[p]
    ensures L.Holds(m', blocks)
  {
    forall k | 0 <= k < |blocks| ensures L.Stored(m', blocks, k) {
      assert L.Stored(m, blocks, k);
      var at, n := L.Offset(blocks, k), |blocks[k].data|;
      assert m'[at..at + n] == m[at..at + n];
    }
  }

  lemma SectionContainer(st: ImageState, id: nat, blocks: seq<L.Block>)
    requires DdSection(st, id, blocks)
    ensures st.secs[id].offset <= |st.mem| && L.Holds(st.mem[st.secs[id].offset..], blocks)
  {
    var body, rest := Body(st, id), st.mem[st.secs[id].offset..];
    forall p | 0 <= p < |body| ensures rest[p] == body[p] {
      SliceIndex(st.mem, st.secs[id].offset, SectionEnd(st.secs[id]), p);
    }
    HoldsWithTail(body, rest, blocks);
  }

  /** What a level lookup gives: a place inside the section whose bytes are the level's block. */
  ghost predicate GivesBlock(st: ImageState, id: nat, found: SectionLookup, content: L.Content)
    requires id < |st.secs|
  {
    var s := found.section;
    match content
    case Present(data) =>
      && found.rc == Ok && st.secs[id].offset <= s.offset && SectionEnd(s) <= SectionEnd(st.secs[id]) <= |st.mem|
      && st.mem[s.offset..SectionEnd(s)] == data && s.alignment == 0 && s.ddSupport == 0
    case Absent => found == SectionLookup(DdLevelNotFound, st.secs[id])
  }

  /** The place of block k, as p9_dd_get gives it, lies in the section and holds the block's bytes. */
  lemma BlockInSection(st: ImageState, id: nat, blocks: seq<L.Block>, k: nat)
    requires DdSection(st, id, blocks) && k < |blocks|
    ensures var at, n := st.secs[id].offset + L.Offset(blocks, k), |blocks[k].data|;
      at + n <= SectionEnd(st.secs[id]) <= |st.mem| && at < U32_LIMIT && st.mem[at..at + n] == blocks[k].data
  {
    SectionContainer(st, id, blocks);
    L.ExtentGrows(blocks, k, |blocks|);
    assert L.Stored(st.mem[st.secs[id].offset..], blocks, k);
    SliceOfDrop(st.mem, st.secs[id].offset, L.Offset(blocks, k), L.Offset(blocks, k) + |blocks[k].data|);
    assert |Body(st, id)| == st.secs[id].size;
  }

  /** A level lookup in terms of the blocks. */
  lemma LevelSection(st: ImageState, id: nat, blocks: seq<L.Block>, given: Section, level: byte)
    requires DdSection(st, id, blocks) && level != UNDEFINED_DD_LEVEL
    ensures LevelReadable(st, st.secs[id], level)
    ensures var k := L.IndexOf(blocks, level);
      GetSection(st, id, given, level) ==
        if k == -1 then SectionLookup(DdLevelNotFound, st.secs[id])
        else SectionLookup(Ok, Section(st.secs[id].offset + L.Offset(blocks, k), |blocks[k].data|, 0, 0))
  {
    SectionContainer(st, id, blocks);
    L.GetHeld(st.mem[st.secs[id].offset..], blocks, level);
    if L.IndexOf(blocks, level) != -1 {
      BlockInSection(st, id, blocks, L.IndexOf(blocks, level));
    }
  }

  /** The DD-level view of a section is exact. */
  lemma LevelViewExact(st: ImageState, id: nat, blocks: seq<L.Block>, given: Section, level: byte)
    requires DdSection(st, id, blocks) && level != UNDEFINED_DD_LEVEL
    ensures LevelReadable(st, st.secs[id], level)
    ensures GivesBlock(st, id, GetSection(st, id, given, level), L.BlockFor(blocks, level))
  {
    LevelSection(st, id, blocks, given, level);
    if L.IndexOf(blocks, level) != -1 {
      BlockInSection(st, id, blocks, L.IndexOf(blocks, level));
    }
  }

  /** So with a structure that an earlier call has filled in for a section with a container, every section number
      that is out of range is answered like that section's, with Ok for every level in the container. */
  lemma OutOfRangeAnswers(st: ImageState, bad: int, id: nat, blocks: seq<L.Block>, level: byte)
    requires DdSection(st, id, blocks) && level != UNDEFINED_DD_LEVEL && !(0 <= bad < SECTIONS)
    ensures LevelReadable(st, st.secs[id], level)
    ensures GivesBlock(st, id, GetSection(st, bad, st.secs[id], level), L.BlockFor(blocks, level))
    ensures L.BlockFor(blocks, level) != L.Absent ==> GetSection(st, bad, st.secs[id], level).rc == Ok
  {
    LevelViewExact(st, id, blocks, st.secs[id], level);
    SameStructure(st, bad, id, level);
  }

  lemma SameStructure(st: ImageState, bad: int, id: nat, level: byte)
    requires |st.secs| == SECTIONS && id < SECTIONS && !(0 <= bad < SECTIONS) && level != UNDEFINED_DD_LEVEL
    requires LevelReadable(st, st.secs[id], level)
    ensures GetSection(st, bad, st.secs[id], level) == GetSection(st, id, st.secs[id], level)
  {
  }

  // ---- how such sections come about, and what keeps them

  /** Appending a container to an empty section with DD support makes one. */
  lemma AppendMakesDdSection(st: ImageState, id: nat, cont: seq<byte>, blocks: seq<L.Block>, allocation: nat)
    requires CanAppend(st, id, cont, allocation) && st.secs[id].size == 0 && L.Holds(cont, blocks)
    ensures DdSection(Appended(st, id, cont, 1), id, blocks)
  {
    AppendKeepsLayout(st, id, cont, allocation, 1);
    AppendFits(st, id, |cont|, allocation);
    NewSectionBody(st, id, cont, 1);
    assert InImage(Appended(st, id, cont, 1).secs[id], Appended(st, id, cont, 1).size);
  }

  /** Appending to another section keeps it. */
  lemma AppendKeepsDdSection(st: ImageState, id: nat, blocks: seq<L.Block>, other: nat, data: seq<byte>,
                             allocation: nat, dd: nat)
    requires DdSection(st, id, blocks) && CanAppend(st, other, data, allocation) && other != id
    ensures DdSection(Appended(st, other, data, dd), id, blocks)
  {
    AppendKeepsBodies(st, other, data, allocation, dd);
    assert InImage(Appended(st, other, data, dd).secs[id], Appended(st, other, data, dd).size);
  }

  /** Deleting another section keeps it, although it may move. */
  lemma DeleteKeepsDdSection(st: ImageState, id: nat, blocks: seq<L.Block>, hasBuffer: bool, bufferSize: nat,
                             other: int)
    requires DdSection(st, id, blocks) && other != id
    ensures DdSection(DeleteOutcome(st, hasBuffer, bufferSize, other).image, id, blocks)
  {
    var o := DeleteOutcome(st, hasBuffer, bufferSize, other);
    if o.rc == Ok && o.image != st {
      DeleteRepacks(st, hasBuffer, bufferSize, other);
      assert Kept(st, other, o.image, id);
      assert InImage(o.image.secs[id], o.image.size);
    }
  }

  /** A DD container that a run of adds has built, appended to an empty section, answers for every level
      with the first block added for it, also after another section has been deleted. */
  lemma BuiltSectionAnswers(ms: seq<seq<byte>>, adds: seq<L.Block>, st: ImageState, id: nat, allocation: nat,
                            hasBuffer: bool, bufferSize: nat, other: int, given: Section, level: byte)
    requires L.Run(ms, adds) && CanAppend(st, id, ms[|adds|], allocation) && st.secs[id].size == 0
    requires level != UNDEFINED_DD_LEVEL && other != id
    ensures Layout(Appended(st, id, ms[|adds|], 1))
    ensures var r := DeleteOutcome(Appended(st, id, ms[|adds|], 1), hasBuffer, bufferSize, other).image;
      |r.secs| == SECTIONS && LevelReadable(r, r.secs[id], level)
      && GivesBlock(r, id, GetSection(r, id, given, level), L.BlockFor(adds, level))
  {
    var st1, blocks := Appended(st, id, ms[|adds|], 1), L.AddAll(adds);
    L.RunHolds(ms, adds);
    L.AddAllFirst(adds, level);
    AppendMakesDdSection(st, id, ms[|adds|], blocks, allocation);
    DeleteKeepsDdSection(st1, id, blocks, hasBuffer, bufferSize, other);
    LevelViewExact(DeleteOutcome(st1, hasBuffer, bufferSize, other).image, id, blocks, given, level);
  }
}
