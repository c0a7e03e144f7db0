/** The DD container: a growable map from DD level to a block of bytes, in one contiguous buffer.
    Its header is followed by one 12-byte block header per level and then by the blocks themselves. */
module DdContainer {
  import opened Bytes

  const DD_MAGIC := 0x4444434F
  const DD_HEADER := 8
  const DD_BLOCK := 12
  const MAX_BLOCKS := 255

  datatype DdRc = DdSuccess | MagicNotFound | LevelNotFound | DoesNotExist | DuplicateLevel

  /** A block header: where the block starts, counted from the container, its size and its level. */
  datatype BlockHeader = BlockHeader(offset: u32, size: u32, level: byte)

  function HeaderBytes(h: BlockHeader): (b: seq<byte>)
    ensures |b| == DD_BLOCK
  {
    U32Bytes(h.offset) + U32Bytes(h.size) + [h.level, 0, 0, 0]
  }

  function HeaderAt(m: seq<byte>, p: nat): BlockHeader
    requires p + DD_BLOCK <= |m|
  {
    BlockHeader(U32At(m, p), U32At(m, p + 4), m[p + 8])
  }

  // ---- what the container operations read from a buffer m

  predicate HasMagic(m: seq<byte>) {
    DD_HEADER <= |m| && U32At(m, 0) == DD_MAGIC
  }

  /** The header, and the block headers it announces, lie in memory. */
  predicate Readable(m: seq<byte>) {
    DD_HEADER <= |m| && (HasMagic(m) ==> MetaSize(m) <= |m|)
  }

  function Count(m: seq<byte>): nat
    requires DD_HEADER <= |m|
  {
    m[4] as nat
  }

  /** p9_dd_size_meta. */
  function MetaSize(m: seq<byte>): nat
    requires DD_HEADER <= |m|
  {
    DD_HEADER + DD_BLOCK * Count(m)
  }

  function HeaderOf(m: seq<byte>, k: nat): BlockHeader
    requires DD_HEADER <= |m| && MetaSize(m) <= |m| && k < Count(m)
  {
    HeaderAt(m, DD_HEADER + DD_BLOCK * k)
  }

  /** p9_dd_size: the last block is taken to be the highest. */
  function ContainerSize(m: seq<byte>): u32
    requires DD_HEADER <= |m| && MetaSize(m) <= |m|
  {
    if Count(m) == 0 then MetaSize(m)
    else
      var last := HeaderOf(m, Count(m) - 1);
      Sum32(last.offset, last.size)
  }

  /** Index of the first block header, from `from` on, with this level, or -1. */
  function LevelIndex(m: seq<byte>, level: byte, from: nat): (r: int)
    requires DD_HEADER <= |m| && MetaSize(m) <= |m| && from <= Count(m)
    ensures r == -1 <==> forall k :: from <= k < Count(m) ==> HeaderOf(m, k).level != level
    ensures r != -1 ==> from <= r < Count(m) && HeaderOf(m, r).level == level
    ensures r != -1 ==> forall k :: from <= k < r ==> HeaderOf(m, k).level != level
    decreases Count(m) - from
  {
    if from == Count(m) then -1 else if HeaderOf(m, from).level == level then from else LevelIndex(m, level, from + 1)
  }

  function Headers(m: seq<byte>): (headers: seq<BlockHeader>)
    requires DD_HEADER <= |m| && MetaSize(m) <= |m|
    ensures |headers| == Count(m) && forall k :: 0 <= k < |headers| ==> headers[k] == HeaderOf(m, k)
  {
    seq(Count(m), k requires 0 <= k < Count(m) => HeaderOf(m, k))
  }

  datatype Lookup = Found(offset: u32, size: u32) | Missing(rc: DdRc)

  /** p9_dd_get: the place of a level's block, counted from the container. */
  function Get(m: seq<byte>, level: byte): Lookup
    requires Readable(m)
  {
    if !HasMagic(m) then Missing(MagicNotFound)
    else
      var k := LevelIndex(m, level, 0);
      if k == -1 then Missing(LevelNotFound) else Found(HeaderOf(m, k).offset, HeaderOf(m, k).size)
  }

  // ---- what p9_dd_add computes

  /** Block header k with its offset raised by the size of one block header. */
  function Shifted(m: seq<byte>, k: nat): (b: seq<byte>)
    requires DD_HEADER <= |m| && MetaSize(m) <= |m| && k < Count(m)
    ensures |b| == DD_BLOCK
  {
    var p := DD_HEADER + DD_BLOCK * k;
    U32Bytes(Sum32(HeaderOf(m, k).offset, DD_BLOCK)) + m[p + 4..p + DD_BLOCK]
  }

  /** Pieces of the length of a block header. */
  predicate Pieces(pieces: seq<seq<byte>>) {
    forall k :: 0 <= k < |pieces| ==> |pieces[k]| == DD_BLOCK
  }

  /** The first n pieces one behind the other. */
  function Flat(pieces: seq<seq<byte>>, n: nat): (b: seq<byte>)
    requires Pieces(pieces) && n <= |pieces|
    ensures |b| == DD_BLOCK * n
  {
    if n == 0 then [] else Flat(pieces, n - 1) + pieces[n - 1]
  }

  function ShiftedHeaders(m: seq<byte>): (pieces: seq<seq<byte>>)
    requires DD_HEADER <= |m| && MetaSize(m) <= |m|
    ensures Pieces(pieces) && |pieces| == Count(m) && forall k :: 0 <= k < |pieces| ==> pieces[k] == Shifted(m, k)
  {
    seq(Count(m), k requires 0 <= k < Count(m) => Shifted(m, k))
  }

  function AllShifted(m: seq<byte>, n: nat): (b: seq<byte>)
    requires DD_HEADER <= |m| && MetaSize(m) <= |m| && n <= Count(m)
    ensures |b| == DD_BLOCK * n
  {
    Flat(ShiftedHeaders(m), n)
  }

  /** A container that a block of n bytes can be added to: its blocks lie behind the block headers and in
      memory, the count fits its byte, and the new size fits 32 bits. */
  predicate Extensible(m: seq<byte>, n: nat) {
    && HasMagic(m) && Readable(m) && Count(m) < MAX_BLOCKS
    && MetaSize(m) <= ContainerSize(m) <= |m| && ContainerSize(m) + DD_BLOCK + n < U32_LIMIT
  }

  /** The container after a block has been added to m: one more in the count, the block headers shifted,
      the new block's header behind them, and its data behind the blocks. */
  function Added(m: seq<byte>, level: byte, data: seq<byte>): (r: seq<byte>)
    requires Extensible(m, |data|)
    ensures |r| == ContainerSize(m) + DD_BLOCK + |data|
  {
    Joined(m[..DD_HEADER], AllShifted(m, Count(m)),
      HeaderBytes(BlockHeader(ContainerSize(m) + DD_BLOCK, |data|, level)),
      m[MetaSize(m)..ContainerSize(m)], data)
  }

  function Joined(first: seq<byte>, headers: seq<byte>, header: seq<byte>, blocks: seq<byte>,
                  data: seq<byte>): seq<byte>
    requires |first| == DD_HEADER && first[4] < 255
  {
    first[4 := first[4] + 1] + headers + header + blocks + data
  }

  /** p9_dd_add rejects a level that is there already, and whatever is not a container. */
  function AddRc(m: seq<byte>, level: byte): DdRc
    requires Readable(m)
  {
    match Get(m, level)
    case Found(_, _) => DuplicateLevel
    case Missing(rc) => if rc == LevelNotFound then DdSuccess else rc
  }

  /** A container as p9_dd_create makes it: the three reserved bytes are whatever malloc returned. */
  predicate Created(m: seq<byte>) {
    |m| == DD_HEADER && HasMagic(m) && Count(m) == 0
  }
}
