/** A DD container is a map from levels to blocks, over every run of adds. */
module DdContainerLaws {
  import opened Bytes
  import opened DdContainer

  datatype Block = Block(level: byte, data: seq<byte>)

  /** Bytes of the first k blocks together. */
  function Extent(blocks: seq<Block>, k: nat): nat
    requires k <= |blocks|
  {
    if k == 0 then 0 else Extent(blocks, k - 1) + |blocks[k - 1].data|
  }

  /** Where block k starts: the blocks follow the block headers without gaps. */
  function Offset(blocks: seq<Block>, k: nat): nat
    requires k <= |blocks|
  {
    DD_HEADER + DD_BLOCK * |blocks| + Extent(blocks, k)
  }

  function Size(blocks: seq<Block>): nat {
    Offset(blocks, |blocks|)
  }

  /** Header and bytes of block k are where they belong. */
  ghost predicate Stored(m: seq<byte>, blocks: seq<Block>, k: nat)
    requires k < |blocks|
  {
    var p, at, n := DD_HEADER + DD_BLOCK * k, Offset(blocks, k), |blocks[k].data|;
    p + DD_BLOCK <= |m| && at + n <= |m| && n < U32_LIMIT && at < U32_LIMIT
    && HeaderAt(m, p) == BlockHeader(at, n, blocks[k].level) && m[at..at + n] == blocks[k].data
  }

  /** The buffer m starts with a container of these blocks. */
  ghost predicate Holds(m: seq<byte>, blocks: seq<Block>) {
    && HasMagic(m) && Count(m) == |blocks| && Size(blocks) <= |m| && Size(blocks) < U32_LIMIT
    && forall k {:trigger Stored(m, blocks, k)} :: 0 <= k < |blocks| ==> Stored(m, blocks, k)
  }

  lemma {:induction false} ExtentGrows(blocks: seq<Block>, k: nat, l: nat)
    requires k <= l <= |blocks|
    ensures Extent(blocks, k) <= Extent(blocks, l)
    ensures k < l ==> Extent(blocks, k) + |blocks[k].data| <= Extent(blocks, l)
    decreases l - k
  {
    if k < l {
      ExtentGrows(blocks, k + 1, l);
    }
  }

  lemma {:induction false} ExtentOfPrefix(blocks: seq<Block>, b: Block, k: nat)
    requires k <= |blocks|
    ensures Extent(blocks + [b], k) == Extent(blocks, k)
  {
    if k > 0 {
      ExtentOfPrefix(blocks, b, k - 1);
    }
  }

  /** p9_dd_size of a container is what its blocks and their headers take. */
  lemma HeldSize(m: seq<byte>, blocks: seq<Block>)
    requires Holds(m, blocks)
    ensures Readable(m) && MetaSize(m) == Offset(blocks, 0) <= ContainerSize(m) == Size(blocks)
  {
    if blocks != [] {
      assert Stored(m, blocks, |blocks| - 1);
    }
  }

  lemma HeldHeader(m: seq<byte>, blocks: seq<Block>, k: nat)
    requires Holds(m, blocks) && k < |blocks|
    ensures MetaSize(m) <= |m| && Offset(blocks, k) < U32_LIMIT && |blocks[k].data| < U32_LIMIT
    ensures HeaderOf(m, k) == BlockHeader(Offset(blocks, k), |blocks[k].data|, blocks[k].level)
  {
    assert Stored(m, blocks, k);
  }

  lemma HeldBytes(m: seq<byte>, blocks: seq<Block>, k: nat)
    requires Holds(m, blocks) && k < |blocks|
    ensures Offset(blocks, k) + |blocks[k].data| <= |m|
    ensures m[Offset(blocks, k)..Offset(blocks, k) + |blocks[k].data|] == blocks[k].data
  {
    assert Stored(m, blocks, k);
  }

  /** Index of the first block with this level, or -1. */
  function IndexOf(blocks: seq<Block>, level: byte): (r: int)
    ensures r == -1 <==> forall k :: 0 <= k < |blocks| ==> blocks[k].level != level
    ensures r != -1 ==> 0 <= r < |blocks| && blocks[r].level == level
    ensures r != -1 ==> forall k :: 0 <= k < r ==> blocks[k].level != level
  {
    if blocks == [] then -1
    else
      var r := IndexOf(blocks[..|blocks| - 1], level);
      if r != -1 then r else if blocks[|blocks| - 1].level == level then |blocks| - 1 else -1
  }

  /** p9_dd_get returns exactly the bytes of a level's block, and reports levels that are not there. */
  lemma GetHeld(m: seq<byte>, blocks: seq<Block>, level: byte)
    requires Holds(m, blocks)
    ensures Readable(m)
    ensures var k := IndexOf(blocks, level);
      if k == -1 then Get(m, level) == Missing(LevelNotFound)
      else
        && Offset(blocks, k) + |blocks[k].data| <= Size(blocks) <= |m| && Size(blocks) < U32_LIMIT
        && Get(m, level) == Found(Offset(blocks, k), |blocks[k].data|)
        && m[Offset(blocks, k)..Offset(blocks, k) + |blocks[k].data|] == blocks[k].data
  {
    HeldSize(m, blocks);
    forall k | 0 <= k < |blocks| ensures HeaderOf(m, k).level == blocks[k].level {
      HeldHeader(m, blocks, k);
    }
    var k := IndexOf(blocks, level);
    if k != -1 {
      HeldHeader(m, blocks, k);
      assert Stored(m, blocks, k);
      ExtentGrows(blocks, k, |blocks|);
      assert LevelIndex(m, level, 0) == k;
    }
  }

  /** What is no container has no levels and takes none. */
  lemma NoContainer(m: seq<byte>, level: byte)
    requires Readable(m) && !HasMagic(m)
    ensures Get(m, level) == Missing(MagicNotFound) && AddRc(m, level) == MagicNotFound
  {
  }

  // ---- adding a block

  lemma {:induction false} FlatAt(pieces: seq<seq<byte>>, n: nat, k: nat)
    requires Pieces(pieces) && k < n <= |pieces|
    ensures Flat(pieces, n)[DD_BLOCK * k..DD_BLOCK * k + DD_BLOCK] == pieces[k]
  {
    if k < n - 1 {
      FlatAt(pieces, n - 1, k);
    }
    PieceAt(Flat(pieces, n - 1), pieces[n - 1], n - 1, k);
  }

  /** A piece before the last one, or the last one. */
  lemma PieceAt(before: seq<byte>, last: seq<byte>, n: nat, k: nat)
    requires |before| == DD_BLOCK * n && |last| == DD_BLOCK && k <= n
    ensures (before + last)[DD_BLOCK * k..DD_BLOCK * k + DD_BLOCK]
      == if k < n then before[DD_BLOCK * k..DD_BLOCK * k + DD_BLOCK] else last
  {
  }

  /** A block header is read back from wherever its bytes are. */
  lemma HeaderFromBytes(m: seq<byte>, p: nat, offset: u32, rest: seq<byte>)
    requires p + DD_BLOCK <= |m| && |rest| == 8 && m[p..p + DD_BLOCK] == U32Bytes(offset) + rest
    ensures HeaderAt(m, p) == BlockHeader(offset, U32At(rest, 0), rest[4])
  {
    var b := m[p..p + DD_BLOCK];
    assert b[0] == m[p] && b[1] == m[p + 1] && b[2] == m[p + 2] && b[3] == m[p + 3];
    assert U32At(b, 0) == U32At(U32Bytes(offset), 0);
    assert b[4] == m[p + 4] && b[5] == m[p + 5] && b[6] == m[p + 6] && b[7] == m[p + 7] && b[8] == m[p + 8];
  }

  /** Where the pieces of the new container are. */
  lemma AddedSlices(m: seq<byte>, level: byte, data: seq<byte>)
    requires Extensible(m, |data|)
    ensures var r, meta, size := Added(m, level, data), MetaSize(m), ContainerSize(m);
      && r[..4] == m[..4] && r[4] == m[4] + 1
      && r[DD_HEADER..meta] == AllShifted(m, Count(m))
      && r[meta..meta + DD_BLOCK] == HeaderBytes(BlockHeader(size + DD_BLOCK, |data|, level))
      && r[meta + DD_BLOCK..size + DD_BLOCK] == m[meta..size]
      && r[size + DD_BLOCK..] == data
  {
    var size := ContainerSize(m);
    JoinedSlices(m[..DD_HEADER], AllShifted(m, Count(m)), HeaderBytes(BlockHeader(size + DD_BLOCK, |data|, level)),
      m[MetaSize(m)..size], data, MetaSize(m), size);
  }

  lemma JoinedSlices(first: seq<byte>, headers: seq<byte>, header: seq<byte>, blocks: seq<byte>, data: seq<byte>,
                     meta: nat, size: nat)
    requires |first| == DD_HEADER && first[4] < 255 && |header| == DD_BLOCK
    requires DD_HEADER + |headers| == meta && meta + |blocks| == size
    ensures var r := Joined(first, headers, header, blocks, data);
      && |r| == size + DD_BLOCK + |data| && r[..4] == first[..4] && r[4] == first[4] + 1
      && r[DD_HEADER..meta] == headers && r[meta..meta + DD_BLOCK] == header
      && r[meta + DD_BLOCK..size + DD_BLOCK] == blocks && r[size + DD_BLOCK..] == data
  {
  }

  /** There is room for the block, and its level is new. */
  ghost predicate CanAdd(m: seq<byte>, blocks: seq<Block>, b: Block) {
    && Holds(m, blocks) && |blocks| < MAX_BLOCKS && Size(blocks) + DD_BLOCK + |b.data| < U32_LIMIT
  }

  lemma CanAddExtends(m: seq<byte>, blocks: seq<Block>, b: Block)
    requires CanAdd(m, blocks, b)
    ensures Extensible(m, |b.data|) && ContainerSize(m) == Size(blocks) && MetaSize(m) == Offset(blocks, 0)
  {
    HeldSize(m, blocks);
  }

  lemma OldHeaderBytes(m: seq<byte>, level: byte, data: seq<byte>, k: nat)
    requires Extensible(m, |data|) && k < Count(m)
    ensures var p := DD_HEADER + DD_BLOCK * k; Added(m, level, data)[p..p + DD_BLOCK] == Shifted(m, k)
  {
    var r, shifted := Added(m, level, data), AllShifted(m, Count(m));
    AddedSlices(m, level, data);
    FlatAt(ShiftedHeaders(m), Count(m), k);
    assert shifted[0..|shifted|] == shifted;
    SameBytes(r, DD_HEADER, shifted, 0, |shifted|, DD_BLOCK * k, DD_BLOCK);
  }

  lemma ShiftedBytes(m: seq<byte>, k: nat)
    requires DD_HEADER <= |m| && MetaSize(m) <= |m| && k < Count(m) && HeaderOf(m, k).offset + DD_BLOCK < U32_LIMIT
    ensures var p := DD_HEADER + DD_BLOCK * k;
      Shifted(m, k) == U32Bytes(HeaderOf(m, k).offset + DD_BLOCK) + m[p + 4..p + DD_BLOCK]
  {
  }

  lemma RestOfHeader(m: seq<byte>, p: nat)
    requires p + DD_BLOCK <= |m|
    ensures var rest := m[p + 4..p + DD_BLOCK]; U32At(rest, 0) == U32At(m, p + 4) && rest[4] == m[p + 8]
  {
  }

  /** The header of a block that was there: only the offset has changed. */
  lemma OldHeader(m: seq<byte>, level: byte, data: seq<byte>, k: nat)
    requires Extensible(m, |data|) && k < Count(m) && HeaderOf(m, k).offset + DD_BLOCK < U32_LIMIT
    ensures HeaderAt(Added(m, level, data), DD_HEADER + DD_BLOCK * k)
      == BlockHeader(HeaderOf(m, k).offset + DD_BLOCK, HeaderOf(m, k).size, HeaderOf(m, k).level)
  {
    var p := DD_HEADER + DD_BLOCK * k;
    OldHeaderBytes(m, level, data, k);
    ShiftedBytes(m, k);
    HeaderFromBytes(Added(m, level, data), p, HeaderOf(m, k).offset + DD_BLOCK, m[p + 4..p + DD_BLOCK]);
    RestOfHeader(m, p);
  }

  lemma SubSlices(r: seq<byte>, m: seq<byte>, lo: nat, hi: nat, a: nat, b: nat)
    requires lo <= a <= b <= hi <= |m| && hi + DD_BLOCK <= |r|
    requires r[lo + DD_BLOCK..hi + DD_BLOCK] == m[lo..hi]
    ensures r[a + DD_BLOCK..b + DD_BLOCK] == m[a..b]
  {
    forall i | a <= i < b ensures r[i + DD_BLOCK] == m[i] {
      SliceIndex(r, lo + DD_BLOCK, hi + DD_BLOCK, i - lo);
      SliceIndex(m, lo, hi, i - lo);
    }
  }

  lemma OldBytes(m: seq<byte>, level: byte, data: seq<byte>, at: nat, n: nat)
    requires Extensible(m, |data|) && MetaSize(m) <= at && at + n <= ContainerSize(m)
    ensures Added(m, level, data)[at + DD_BLOCK..at + DD_BLOCK + n] == m[at..at + n]
  {
    AddedSlices(m, level, data);
    MovedPart(Added(m, level, data), m, MetaSize(m), ContainerSize(m), at, n);
  }

  lemma MovedPart(r: seq<byte>, m: seq<byte>, lo: nat, hi: nat, at: nat, n: nat)
    requires lo <= at && at + n <= hi <= |m| && hi + DD_BLOCK <= |r|
    requires r[lo + DD_BLOCK..hi + DD_BLOCK] == m[lo..hi]
    ensures r[at + DD_BLOCK..at + DD_BLOCK + n] == m[at..at + n]
  {
    SubSlices(r, m, lo, hi, at, at + n);
  }

  /** A block that was there is still there, 12 bytes further up. */
  lemma OldBlock(m: seq<byte>, blocks: seq<Block>, b: Block, k: nat)
    requires CanAdd(m, blocks, b) && k < |blocks|
    ensures Extensible(m, |b.data|) && Stored(Added(m, b.level, b.data), blocks + [b], k)
  {
    CanAddExtends(m, blocks, b);
    HeldHeader(m, blocks, k);
    HeldBytes(m, blocks, k);
    OffsetRaised(blocks, b, k);
    BlockMoved(m, b.level, b.data, blocks + [b], k, Offset(blocks, k), blocks[k], Offset(blocks + [b], k));
  }

  /** Header and bytes of the block that was at `at`, once it is at at'. */
  lemma MovedHeader(m: seq<byte>, level: byte, data: seq<byte>, k: nat, at: u32, b: Block, at': u32)
    requires Extensible(m, |data|) && k < Count(m) && at' == at + DD_BLOCK && |b.data| < U32_LIMIT
    requires HeaderOf(m, k) == BlockHeader(at, |b.data|, b.level)
    ensures DD_HEADER + DD_BLOCK * k + DD_BLOCK <= |Added(m, level, data)|
    ensures HeaderAt(Added(m, level, data), DD_HEADER + DD_BLOCK * k) == BlockHeader(at', |b.data|, b.level)
  {
    OldHeader(m, level, data, k);
  }

  lemma MovedBytes(m: seq<byte>, level: byte, data: seq<byte>, at: u32, b: Block, at': u32)
    requires Extensible(m, |data|) && at' == at + DD_BLOCK
    requires MetaSize(m) <= at && at + |b.data| <= ContainerSize(m) && m[at..at + |b.data|] == b.data
    ensures at' + |b.data| <= |Added(m, level, data)|
    ensures Added(m, level, data)[at'..at' + |b.data|] == b.data
  {
    OldBytes(m, level, data, at, |b.data|);
  }

  lemma BlockMoved(m: seq<byte>, level: byte, data: seq<byte>, all: seq<Block>, k: nat, at: u32, b: Block, at': u32)
    requires Extensible(m, |data|) && k < Count(m) && k < |all| && b == all[k]
    requires Offset(all, k) == at' == at + DD_BLOCK && |b.data| < U32_LIMIT
    requires MetaSize(m) <= at && at + |b.data| <= ContainerSize(m)
    requires HeaderOf(m, k) == BlockHeader(at, |b.data|, b.level) && m[at..at + |b.data|] == b.data
    ensures Stored(Added(m, level, data), all, k)
  {
    MovedHeader(m, level, data, k, at, b, at');
    MovedBytes(m, level, data, at, b, at');
    StoredIf(Added(m, level, data), all, k, at', b);
  }

  /** Behind one more block header every block starts 12 bytes further up. */
  lemma OffsetRaised(blocks: seq<Block>, b: Block, k: nat)
    requires k < |blocks|
    ensures Offset(blocks + [b], k) == Offset(blocks, k) + DD_BLOCK
    ensures Offset(blocks, 0) <= Offset(blocks, k) && Offset(blocks, k) + |blocks[k].data| <= Size(blocks)
  {
    ExtentOfPrefix(blocks, b, k);
    ExtentGrows(blocks, k, |blocks|);
  }

  lemma StoredIf(m: seq<byte>, blocks: seq<Block>, k: nat, at: u32, b: Block)
    requires k < |blocks| && b == blocks[k] && at == Offset(blocks, k) && |b.data| < U32_LIMIT
    requires DD_HEADER + DD_BLOCK * k + DD_BLOCK <= |m| && at + |b.data| <= |m|
    requires HeaderAt(m, DD_HEADER + DD_BLOCK * k) == BlockHeader(at, |b.data|, b.level)
    requires m[at..at + |b.data|] == b.data
    ensures Stored(m, blocks, k)
  {
  }

  lemma NewHeader(m: seq<byte>, level: byte, data: seq<byte>)
    requires Extensible(m, |data|)
    ensures HeaderAt(Added(m, level, data), MetaSize(m)) == BlockHeader(ContainerSize(m) + DD_BLOCK, |data|, level)
  {
    AddedSlices(m, level, data);
    var offset, n: u32 := ContainerSize(m) + DD_BLOCK, |data|;
    var size := U32Bytes(n);
    var rest := size + [level, 0, 0, 0];
    assert HeaderBytes(BlockHeader(offset, n, level)) == U32Bytes(offset) + rest;
    HeaderFromBytes(Added(m, level, data), MetaSize(m), offset, rest);
    assert rest[0] == size[0] && rest[1] == size[1] && rest[2] == size[2] && rest[3] == size[3];
  }

  /** Reserved bytes: those of the container and of the old block headers stay, those of the new header are zero. */
  lemma ReservedBytes(m: seq<byte>, level: byte, data: seq<byte>)
    requires Extensible(m, |data|)
    ensures var r, p := Added(m, level, data), MetaSize(m);
      && r[5..8] == m[5..8] && r[p + 9] == 0 && r[p + 10] == 0 && r[p + 11] == 0
      && forall k :: 0 <= k < Count(m) ==>
           r[DD_HEADER + DD_BLOCK * k + 4..DD_HEADER + DD_BLOCK * k + DD_BLOCK]
           == m[DD_HEADER + DD_BLOCK * k + 4..DD_HEADER + DD_BLOCK * k + DD_BLOCK]
  {
    var r, p, size := Added(m, level, data), MetaSize(m), ContainerSize(m);
    AddedSlices(m, level, data);
    HeadSlice(m[..DD_HEADER], AllShifted(m, Count(m)), HeaderBytes(BlockHeader(size + DD_BLOCK, |data|, level)),
      m[p..size], data);
    assert m[..DD_HEADER][5..8] == m[5..8];
    NewReserved(r, p, BlockHeader(size + DD_BLOCK, |data|, level));
    forall k | 0 <= k < Count(m)
      ensures r[DD_HEADER + DD_BLOCK * k + 4..DD_HEADER + DD_BLOCK * k + DD_BLOCK]
        == m[DD_HEADER + DD_BLOCK * k + 4..DD_HEADER + DD_BLOCK * k + DD_BLOCK]
    {
      OldHeaderBytes(m, level, data, k);
      BehindWord(r, DD_HEADER + DD_BLOCK * k, U32Bytes(Sum32(HeaderOf(m, k).offset, DD_BLOCK)),
        m[DD_HEADER + DD_BLOCK * k + 4..DD_HEADER + DD_BLOCK * k + DD_BLOCK]);
    }
  }

  lemma HeadSlice(first: seq<byte>, headers: seq<byte>, header: seq<byte>, blocks: seq<byte>, data: seq<byte>)
    requires |first| == DD_HEADER && first[4] < 255
    ensures Joined(first, headers, header, blocks, data)[5..8] == first[5..8]
  {
  }

  lemma NewReserved(r: seq<byte>, p: nat, h: BlockHeader)
    requires p + DD_BLOCK <= |r| && r[p..p + DD_BLOCK] == HeaderBytes(h)
    ensures r[p + 9] == 0 && r[p + 10] == 0 && r[p + 11] == 0
  {
    var b := r[p..p + DD_BLOCK];
    assert b[9] == 0 && b[10] == 0 && b[11] == 0;
  }

  lemma BehindWord(r: seq<byte>, p: nat, word: seq<byte>, rest: seq<byte>)
    requires p + DD_BLOCK <= |r| && |word| == 4 && r[p..p + DD_BLOCK] == word + rest
    ensures r[p + 4..p + DD_BLOCK] == rest
  {
    assert r[p + 4..p + DD_BLOCK] == r[p..p + DD_BLOCK][4..];
  }

  lemma NewBlock(m: seq<byte>, blocks: seq<Block>, b: Block)
    requires CanAdd(m, blocks, b)
    ensures Extensible(m, |b.data|) && Stored(Added(m, b.level, b.data), blocks + [b], |blocks|)
  {
    CanAddExtends(m, blocks, b);
    AddedSlices(m, b.level, b.data);
    ExtentOfPrefix(blocks, b, |blocks|);
    NewHeader(m, b.level, b.data);
  }

  /** Adding a block keeps all the others and stores the new one; the buffer is exactly as long as needed. */
  lemma AddHolds(m: seq<byte>, blocks: seq<Block>, b: Block)
    requires CanAdd(m, blocks, b)
    ensures Extensible(m, |b.data|)
    ensures Holds(Added(m, b.level, b.data), blocks + [b]) && |Added(m, b.level, b.data)| == Size(blocks + [b])
  {
    CanAddExtends(m, blocks, b);
    AddedHead(m, b.level, b.data);
    ExtentOfPrefix(blocks, b, |blocks|);
    var r, all := Added(m, b.level, b.data), blocks + [b];
    forall k | 0 <= k < |all| ensures Stored(r, all, k) {
      if k < |blocks| {
        OldBlock(m, blocks, b, k);
      } else {
        NewBlock(m, blocks, b);
      }
    }
  }

  lemma AddedHead(m: seq<byte>, level: byte, data: seq<byte>)
    requires Extensible(m, |data|)
    ensures HasMagic(Added(m, level, data)) && Count(Added(m, level, data)) == Count(m) + 1
  {
    AddedSlices(m, level, data);
    var r := Added(m, level, data);
    assert r[..4][0] == m[..4][0] && r[..4][1] == m[..4][1] && r[..4][2] == m[..4][2] && r[..4][3] == m[..4][3];
  }

  // ---- runs of adds

  /** What an add makes of the blocks: a level that is there already is rejected. */
  function Adding(blocks: seq<Block>, b: Block): seq<Block> {
    if IndexOf(blocks, b.level) == -1 then blocks + [b] else blocks
  }

  function AddAll(adds: seq<Block>): seq<Block> {
    if adds == [] then [] else Adding(AddAll(adds[..|adds| - 1]), adds[|adds| - 1])
  }

  /** One call of p9_dd_add whose demands are met takes the buffer from m to m'. */
  ghost predicate AddStep(m: seq<byte>, b: Block, m': seq<byte>) {
    && Readable(m)
    && if AddRc(m, b.level) == DdSuccess then Extensible(m, |b.data|) && m' == Added(m, b.level, b.data) else m' == m
  }

  /** A run: a new container, and one add after the other. */
  ghost predicate Run(ms: seq<seq<byte>>, adds: seq<Block>) {
    && |ms| == |adds| + 1 && Created(ms[0])
    && forall i {:trigger adds[i]} :: 0 <= i < |adds| ==> AddStep(ms[i], adds[i], ms[i + 1])
  }

  /** After every run the buffer holds exactly the blocks of the adds that were not duplicates, in order,
      and its length is the size that p9_dd_size computes and the last successful add reported. */
  lemma {:induction false} RunHolds(ms: seq<seq<byte>>, adds: seq<Block>)
    requires Run(ms, adds)
    ensures Holds(ms[|adds|], AddAll(adds)) && |ms[|adds|]| == Size(AddAll(adds))
    decreases |adds|
  {
    var n := |adds|;
    if n > 0 {
      var m, blocks, b := ms[n - 1], AddAll(adds[..n - 1]), adds[n - 1];
      assert Run(ms[..n], adds[..n - 1]);
      RunHolds(ms[..n], adds[..n - 1]);
      assert AddStep(m, b, ms[n]);
      GetHeld(m, blocks, b.level);
      HeldSize(m, blocks);
      if AddRc(m, b.level) == DdSuccess {
        AddHolds(m, blocks, b);
      }
    }
  }

  datatype Content = Absent | Present(data: seq<byte>)

  /** The bytes of the first block with this level. */
  function BlockFor(blocks: seq<Block>, level: byte): Content {
    if IndexOf(blocks, level) == -1 then Absent else Present(blocks[IndexOf(blocks, level)].data)
  }

  lemma AppendedBlock(blocks: seq<Block>, b: Block, level: byte)
    ensures BlockFor(blocks + [b], level)
      == if BlockFor(blocks, level) != Absent then BlockFor(blocks, level)
         else if b.level == level then Present(b.data) else Absent
  {
    assert (blocks + [b])[..|blocks|] == blocks;
    var k := IndexOf(blocks, level);
    assert IndexOf(blocks + [b], level) == if k != -1 then k else if b.level == level then |blocks| else -1;
  }

  lemma AddingBlock(blocks: seq<Block>, b: Block, level: byte)
    ensures BlockFor(Adding(blocks, b), level)
      == if BlockFor(blocks, level) != Absent then BlockFor(blocks, level)
         else if b.level == level then Present(b.data) else Absent
  {
    AppendedBlock(blocks, b, level);
  }

  /** The block kept for a level is that of the first add for it. */
  lemma {:induction false} AddAllFirst(adds: seq<Block>, level: byte)
    ensures BlockFor(AddAll(adds), level) == BlockFor(adds, level)
  {
    if adds != [] {
      var n := |adds| - 1;
      AddAllFirst(adds[..n], level);
      AddingBlock(AddAll(adds[..n]), adds[n], level);
      assert adds == adds[..n] + [adds[n]];
      AppendedBlock(adds[..n], adds[n], level);
    }
  }

  /** What p9_dd_get gives is a level's block, as a map from levels to bytes. */
  ghost predicate GivesContent(m: seq<byte>, found: Lookup, content: Content) {
    match found
    case Found(offset, size) => offset + size <= |m| && content == Present(m[offset..offset + size])
    case Missing(rc) => content == Absent && rc == LevelNotFound
  }

  lemma GetIsMap(m: seq<byte>, blocks: seq<Block>, level: byte)
    requires Holds(m, blocks)
    ensures Readable(m) && GivesContent(m, Get(m, level), BlockFor(blocks, level))
  {
    GetHeld(m, blocks, level);
  }

  /** The container is a map: after every run of adds, p9_dd_get of a level gives exactly the bytes of the
      first add for it, and reports LevelNotFound if there was none. */
  lemma RunIsMap(ms: seq<seq<byte>>, adds: seq<Block>, level: byte)
    requires Run(ms, adds)
    ensures Readable(ms[|adds|]) && GivesContent(ms[|adds|], Get(ms[|adds|], level), BlockFor(adds, level))
  {
    RunHolds(ms, adds);
    AddAllFirst(adds, level);
    GetIsMap(ms[|adds|], AddAll(adds), level);
  }

  lemma {:induction false} AddAllDistinct(adds: seq<Block>)
    ensures forall i, j :: 0 <= i < j < |AddAll(adds)| ==> AddAll(adds)[i].level != AddAll(adds)[j].level
  {
    if adds != [] {
      AddAllDistinct(adds[..|adds| - 1]);
    }
  }

  /** The header h is that of the block b, whose bytes lie where it says. */
  ghost predicate Describes(m: seq<byte>, h: BlockHeader, b: Block) {
    && h.level == b.level && h.size == |b.data| && h.offset + h.size <= |m|
    && m[h.offset..h.offset + h.size] == b.data
  }

  lemma HeldDescribed(m: seq<byte>, blocks: seq<Block>, k: nat)
    requires Holds(m, blocks) && k < |blocks|
    ensures MetaSize(m) <= |m| && Describes(m, HeaderOf(m, k), blocks[k])
  {
    HeldHeader(m, blocks, k);
    HeldBytes(m, blocks, k);
  }

  lemma HeadersDescribe(m: seq<byte>, blocks: seq<Block>)
    requires Holds(m, blocks)
    ensures MetaSize(m) <= |m| && |Headers(m)| == |blocks|
    ensures forall k :: 0 <= k < |blocks| ==> Describes(m, Headers(m)[k], blocks[k])
  {
    HeldSize(m, blocks);
    forall k | 0 <= k < |blocks| ensures Describes(m, Headers(m)[k], blocks[k]) {
      HeldDescribed(m, blocks, k);
    }
  }

  /** After every run, what DdContainerImpl.List collects by going through the container with p9_dd_next from
      the start to the end are the headers of the blocks of the adds that were not duplicates, in the order of
      the adds: every level that has been added, once. */
  lemma RunEnumerates(ms: seq<seq<byte>>, adds: seq<Block>)
    requires Run(ms, adds)
    ensures var m, blocks := ms[|adds|], AddAll(adds);
      && Readable(m) && HasMagic(m) && |Headers(m)| == |blocks|
      && (forall k :: 0 <= k < |blocks| ==> Describes(m, Headers(m)[k], blocks[k]))
      && (forall i, j :: 0 <= i < j < |blocks| ==> blocks[i].level != blocks[j].level)
    ensures forall level {:trigger BlockFor(adds, level)} ::
      BlockFor(adds, level) != Absent <==> exists k :: 0 <= k < |AddAll(adds)| && AddAll(adds)[k].level == level
  {
    RunHolds(ms, adds);
    HeldSize(ms[|adds|], AddAll(adds));
    AddAllDistinct(adds);
    HeadersDescribe(ms[|adds|], AddAll(adds));
    forall level {:trigger BlockFor(adds, level)}
      ensures BlockFor(adds, level) != Absent <==> exists k :: 0 <= k < |AddAll(adds)| && AddAll(adds)[k].level == level
    {
      AddAllFirst(adds, level);
    }
  }

  /** An add is rejected as a duplicate exactly when the level has been added before, and changes nothing then. */
  lemma DuplicatesRejected(ms: seq<seq<byte>>, adds: seq<Block>, level: byte)
    requires Run(ms, adds)
    ensures Readable(ms[|adds|])
    ensures AddRc(ms[|adds|], level) == if BlockFor(adds, level) == Absent then DdSuccess else DuplicateLevel
  {
    RunIsMap(ms, adds, level);
  }
}
