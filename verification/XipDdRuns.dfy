/** Sections that hold DD containers, over runs of image operations. */
module XipDdRuns {
  import opened Bytes
  import opened XipTypes
  import opened XipLayout
  import opened XipAppend
  import opened XipNormalize
  import opened XipNormalizeLaws
  import opened XipNormalizeSteps
  import opened XipFind
  import opened XipDdSection
  import opened XipCarry
  import opened XipRuns
  import L = DdContainerLaws

  /** The call does not append to or delete this section, and the section is none of the TOC's. */
  predicate Spares(call: Call, id: nat) {
    match call
    case CallAppend(other, _, _, _) => other != id
    case CallDelete(_, _, other) => other != id
    case CallNormalize(_) => id != TOC && id != FIXED_TOC
  }

  lemma NormalizeKeepsDdSection(st: ImageState, st': ImageState, rc: Rc, hash: Hash, id: nat, blocks: seq<L.Block>)
    requires DdSection(st, id, blocks) && NormalizePost(st, st', rc, hash) && id != TOC && id != FIXED_TOC
    ensures DdSection(st', id, blocks)
  {
    NormalizeKeepsLayout(st, st', rc, hash);
    assert |Body(st, id)| == st.secs[id].size;
    assert st'.size == st.size && (st'.secs == st.secs || st'.secs == ClearedAll(st.secs));
    OtherBodyUnchanged(st, st', id);
  }

  lemma AppendStepKeepsDdSection(st: ImageState, st': ImageState, other: int, data: seq<byte>, allocation: nat, dd: nat,
                                 rc: Rc, id: nat, blocks: seq<L.Block>)
    requires DdSection(st, id, blocks) && other != id && allocation <= |st.mem| && allocation < U32_LIMIT
    requires AppendPost(st, st', other, data, allocation, dd, rc)
    ensures DdSection(st', id, blocks)
  {
    if rc != Ok {
      FailedAppendKeepsImage(st, st', other, data, allocation, dd, rc);
    } else if data != [] {
      AppendKeepsDdSection(st, id, blocks, other, data, allocation, dd);
    }
  }

  /** The level lookup gives exactly the level's block. */
  ghost predicate AnswersExactly(st: ImageState, id: nat, blocks: seq<L.Block>, given: Section, level: byte) {
    && Layout(st) && id < SECTIONS && LevelReadable(st, st.secs[id], level)
    && GivesBlock(st, id, GetSection(st, id, given, level), L.BlockFor(blocks, level))
  }

  /** A section that holds a DD container keeps answering exactly for every level, through every run of
      calls that do not address it, wherever it is moved. */
  lemma {:induction false} RunKeepsLevelView(images: seq<ImageState>, calls: seq<Call>, codes: seq<Rc>, i: nat,
                                             id: nat, blocks: seq<L.Block>, given: Section, level: byte)
    requires Run(images, calls, codes) && i <= |calls| && DdSection(images[0], id, blocks)
    requires forall k {:trigger calls[k]} :: 0 <= k < i ==> Spares(calls[k], id)
    ensures DdSection(images[i], id, blocks)
    ensures level != UNDEFINED_DD_LEVEL ==> AnswersExactly(images[i], id, blocks, given, level)
  {
    if i > 0 {
      RunKeepsLevelView(images, calls, codes, i - 1, id, blocks, given, level);
      var st, st' := images[i - 1], images[i];
      assert Step(st, calls[i - 1], st', codes[i - 1]) && Spares(calls[i - 1], id);
      match calls[i - 1] {
        case CallAppend(other, data, allocation, dd) =>
          AppendStepKeepsDdSection(st, st', other, data, allocation, dd, codes[i - 1], id, blocks);
        case CallDelete(hasBuffer, bufferSize, other) =>
          DeleteKeepsDdSection(st, id, blocks, hasBuffer, bufferSize, other);
        case CallNormalize(hash) =>
          NormalizeKeepsDdSection(st, st', codes[i - 1], hash, id, blocks);
      }
    }
    if level != UNDEFINED_DD_LEVEL {
      LevelViewExact(images[i], id, blocks, given, level);
    }
  }

  /** Through every run that does not touch it, asking for a whole section gives its table entry, which describes the
      bytes that it had at first. */
  lemma RunKeepsWholeSection(images: seq<ImageState>, calls: seq<Call>, codes: seq<Rc>, n: nat, id: nat, given: Section)
    requires Run(images, calls, codes) && n <= |calls| && id < SECTIONS && id !in Touched(calls, codes, n)
    ensures Layout(images[0]) && Layout(images[n]) && SectionEnd(images[0].secs[id]) <= |images[0].mem|
    ensures var found := GetSection(images[n], id, given, UNDEFINED_DD_LEVEL);
      && found.rc == Ok && found.section.(offset := images[0].secs[id].offset) == images[0].secs[id]
      && SectionEnd(found.section) <= |images[n].mem|
      && images[n].mem[found.section.offset..SectionEnd(found.section)] == Body(images[0], id)
  {
    RunKeepsSections(images, calls, codes, n);
    CarriedIs(images[0], Touched(calls, codes, n), Gone(calls, codes, n), images[n], id);
    WholeSection(images[n], id, given);
  }
}
