/** The DD container's operations on a buffer in memory. */
module DdContainerImpl {
  import opened Bytes
  import opened Memory
  import opened DdContainer

  /** p9_dd_validate. */
  method Validate(mem: array?<byte>, at: nat) returns (rc: DdRc)
    requires mem != null ==> at <= mem.Length && Readable(mem[at..])
    ensures rc == if mem == null then DoesNotExist else if HasMagic(mem[at..]) then DdSuccess else MagicNotFound
  {
    if mem == null {
      return DoesNotExist;
    }
    if ReadU32(mem, at) != DD_MAGIC {
      WordBehind(mem[..], at, 0);
      return MagicNotFound;
    }
    WordBehind(mem[..], at, 0);
    return DdSuccess;
  }

  /** Words of a container that starts at `at`. */
  lemma WordBehind(m: seq<byte>, at: nat, p: nat)
    requires at + p + 4 <= |m|
    ensures U32At(m[at..], p) == U32At(m, at + p)
  {
  }

  lemma HeaderBehind(m: seq<byte>, at: nat, p: nat)
    requires at + p + DD_BLOCK <= |m|
    ensures HeaderAt(m[at..], p) == BlockHeader(U32At(m, at + p), U32At(m, at + (p + 4)), m[at + p + 8])
  {
    WordBehind(m, at, p);
    WordBehind(m, at, p + 4);
  }

  /** Walks through the block headers of the container at position `at` of a buffer. */
  class DdIterator {
    const mem: array<byte>
    const at: nat
    var idx: nat

    constructor (mem: array<byte>, at: nat)
      ensures this.mem == mem && this.at == at && idx == 0
    {
      this.mem := mem;
      this.at := at;
      idx := 0;
    }

    /** The position of the next block header, until there are no more. */
    method Next() returns (more: bool, p: nat)
      requires at + DD_HEADER <= mem.Length
      modifies this
      ensures more == (old(idx) < mem[at + 4] as nat)
      ensures idx == if more then old(idx) + 1 else old(idx)
      ensures more ==> p == at + DD_HEADER + DD_BLOCK * old(idx)
    {
      more, p := idx < mem[at + 4] as nat, 0;
      if more {
        p := at + DD_HEADER + DD_BLOCK * idx;
        idx := idx + 1;
      }
    }
  }

  /** p9_dd_betoh: the block header at position p of the buffer. */
  method ReadHeader(mem: array<byte>, p: nat, ghost at: nat, ghost k: nat) returns (h: BlockHeader)
    requires at + DD_HEADER <= mem.Length && MetaSize(mem[at..]) <= mem.Length - at && k < Count(mem[at..])
    requires p == at + DD_HEADER + DD_BLOCK * k
    ensures h == HeaderOf(mem[at..], k)
  {
    h := BlockHeader(ReadU32(mem, p), ReadU32(mem, p + 4), mem[p + 8]);
    HeaderBehind(mem[..], at, DD_HEADER + DD_BLOCK * k);
  }

  /** One turn of a search: the iterator stands behind header k, and the ones before it have other levels. */
  ghost predicate Searching(m: seq<byte>, level: byte, k: nat) {
    Readable(m) && HasMagic(m) && k <= Count(m) && LevelIndex(m, level, 0) == LevelIndex(m, level, k)
  }

  /** p9_dd_get on the container at position `at`: offset and size of a level's block. */
  method GetBlock(mem: array?<byte>, at: nat, level: byte) returns (r: Lookup)
    requires mem != null ==> at <= mem.Length && Readable(mem[at..])
    ensures r == if mem == null then Missing(DoesNotExist) else Get(mem[at..], level)
  {
    var rc := Validate(mem, at);
    if rc != DdSuccess {
      return Missing(rc);
    }
    ghost var m := mem[at..];
    var iter := new DdIterator(mem, at);
    var more, p := iter.Next();
    while more
      invariant fresh(iter) && iter.mem == mem && iter.at == at && iter.idx <= Count(m) == mem[at + 4] as nat
        && mem[at..] == m
      invariant more ==> iter.idx > 0 && p == at + DD_HEADER + DD_BLOCK * (iter.idx - 1)
      invariant !more ==> iter.idx == Count(m)
      invariant Searching(m, level, if more then iter.idx - 1 else iter.idx)
      decreases more, Count(m) - iter.idx
    {
      var h := ReadHeader(mem, p, at, iter.idx - 1);
      if h.level == level {
        return Found(h.offset, h.size);
      }
      more, p := iter.Next();
    }
    return Missing(LevelNotFound);
  }

  /** p9_dd_tool_list: every block header that the iterator yields from its start. */
  method List(mem: array<byte>) returns (listed: seq<BlockHeader>)
    requires DD_HEADER <= mem.Length && MetaSize(mem[..]) <= mem.Length
    ensures listed == Headers(mem[..])
  {
    ghost var m := mem[..];
    assert mem[0..] == m;
    listed := [];
    ghost var k: nat := 0;
    var iter := new DdIterator(mem, 0);
    var more, p := iter.Next();
    while more
      invariant fresh(iter) && iter.mem == mem && iter.at == 0 && mem[..] == m
      invariant more ==> iter.idx == k + 1 && k < Count(m) && p == DD_HEADER + DD_BLOCK * k
      invariant !more ==> iter.idx == k == Count(m)
      invariant listed == Headers(m)[..k]
      decreases more, Count(m) - k
    {
      var h := ReadHeader(mem, p, 0, k);
      listed := listed + [h];
      k := k + 1;
      more, p := iter.Next();
    }
  }

  method SizeOfMeta(mem: array<byte>) returns (n: nat)
    requires Readable(mem[..])
    ensures n == MetaSize(mem[..])
  {
    n := DD_HEADER + DD_BLOCK * mem[4] as nat;
  }

  method SizeOf(mem: array<byte>) returns (n: u32)
    requires Readable(mem[..]) && HasMagic(mem[..])
    ensures n == ContainerSize(mem[..])
  {
    var meta := SizeOfMeta(mem);
    if mem[4] == 0 {
      return meta;
    }
    var last := meta - DD_BLOCK;
    assert mem[..] == mem[0..];
    return Sum32(ReadU32(mem, last), ReadU32(mem, last + 4));
  }

  /** An empty container; its reserved bytes are left as the allocator returned them. */
  method Create() returns (mem: array<byte>)
    ensures fresh(mem) && Created(mem[..])
  {
    mem := new byte[DD_HEADER];
    WriteU32(mem, 0, DD_MAGIC);
    assert mem[..][..4] == U32Bytes(DD_MAGIC);
    assert U32At(mem[..], 0) == U32At(U32Bytes(DD_MAGIC), 0);
    mem[4] := 0;
  }

  // ---- adding a block

  function RaisedOffset(m: seq<byte>, p: nat): (r: seq<byte>)
    requires p + 4 <= |m|
    ensures |r| == |m|
  {
    Splice(m, p, U32Bytes(Sum32(U32At(m, p), DD_BLOCK)))
  }

  /** The buffer after the first k offsets have been raised, one word after the other. */
  function ShiftedMemory(m: seq<byte>, k: nat): (r: seq<byte>)
    requires DD_HEADER + DD_BLOCK * k <= |m|
    ensures |r| == |m|
  {
    if k == 0 then m else RaisedOffset(ShiftedMemory(m, k - 1), DD_HEADER + DD_BLOCK * (k - 1))
  }

  lemma RaisedKeepsCount(m: seq<byte>, p: nat)
    requires DD_HEADER <= p && p + 4 <= |m|
    ensures RaisedOffset(m, p)[4] == m[4]
  {
  }

  /** That is the first k block headers shifted, and nothing else. */
  ghost predicate HeadersShifted(m: seq<byte>, k: nat)
    requires DD_HEADER <= |m| && MetaSize(m) <= |m| && k <= Count(m)
  {
    ShiftedMemory(m, k) == Splice(m, DD_HEADER, AllShifted(m, k))
  }

  lemma ShiftedMore(m: seq<byte>, k: nat)
    requires DD_HEADER <= |m| && MetaSize(m) <= |m| && k < Count(m) && HeadersShifted(m, k)
    ensures HeadersShifted(m, k + 1)
  {
    ShiftNext(m, AllShifted(m, k), k);
  }

  lemma {:induction false} ShiftedMemoryIs(m: seq<byte>, k: nat)
    requires DD_HEADER <= |m| && MetaSize(m) <= |m| && k <= Count(m)
    ensures HeadersShifted(m, k)
  {
    if k > 0 {
      ShiftedMemoryIs(m, k - 1);
      ShiftedMore(m, k - 1);
    } else {
      assert m == m[..DD_HEADER] + m[DD_HEADER..];
    }
  }

  lemma ShiftNext(m: seq<byte>, done: seq<byte>, k: nat)
    requires DD_HEADER <= |m| && MetaSize(m) <= |m| && k < Count(m) && done == AllShifted(m, k)
    ensures RaisedOffset(Splice(m, DD_HEADER, done), DD_HEADER + DD_BLOCK * k)
      == Splice(m, DD_HEADER, AllShifted(m, k + 1))
  {
    var p, r := DD_HEADER + DD_BLOCK * k, Splice(m, DD_HEADER, done);
    assert U32At(r, p) == HeaderOf(m, k).offset;
    var word := U32Bytes(Sum32(HeaderOf(m, k).offset, DD_BLOCK));
    SpliceTwice(m, DD_HEADER, done, word);
    SpliceKeeping(m, DD_HEADER, done + word, p + DD_BLOCK);
    assert done + word + m[p + 4..p + DD_BLOCK] == done + Shifted(m, k) == AllShifted(m, k + 1);
  }

  /** Replacing a stretch, or that and the bytes that follow it by themselves, is the same. */
  lemma SpliceKeeping(m: seq<byte>, at: nat, d: seq<byte>, end: nat)
    requires at + |d| <= end <= |m|
    ensures Splice(m, at, d) == Splice(m, at, d + m[at + |d|..end])
  {
    assert m[at + |d|..] == m[at + |d|..end] + m[end..];
  }

  /** Raise the offset of block k. */
  method RaiseOffset(mem: array<byte>, p: nat, ghost m: seq<byte>, ghost k: nat)
    requires p == DD_HEADER + DD_BLOCK * k && p + DD_BLOCK <= |m| && mem[..] == ShiftedMemory(m, k)
    modifies mem
    ensures mem[..] == ShiftedMemory(m, k + 1) && mem[4] == old(mem[4])
  {
    ghost var was := mem[..];
    WriteU32(mem, p, Sum32(ReadU32(mem, p), DD_BLOCK));
    assert mem[..] == RaisedOffset(was, p);
    RaisedKeepsCount(was, p);
    assert mem[..][4] == was[4];
  }

  /** Raise the offsets of all blocks by the size of one block header. */
  method ShiftOffsets(mem: array<byte>)
    requires Readable(mem[..]) && HasMagic(mem[..])
    modifies mem
    ensures mem[..] == Splice(old(mem[..]), DD_HEADER, AllShifted(old(mem[..]), Count(old(mem[..]))))
  {
    ghost var m, k: nat := mem[..], 0;
    var iter := new DdIterator(mem, 0);
    var more, p := iter.Next();
    while more
      invariant fresh(iter) && iter.mem == mem && iter.at == 0 && mem[4] == m[4]
      invariant more ==> iter.idx == k + 1 && k < Count(m) && p == DD_HEADER + DD_BLOCK * k
      invariant !more ==> iter.idx == k == Count(m)
      invariant k <= Count(m) && mem[..] == ShiftedMemory(m, k)
      decreases more, Count(m) - k
    {
      RaiseOffset(mem, p, m, k);
      k := k + 1;
      more, p := iter.Next();
    }
    ShiftedMemoryIs(m, k);
  }

  lemma SpliceOver(m: seq<byte>, p: nat, a: seq<byte>, b: seq<byte>)
    requires |a| == |b| && p + |a| <= |m|
    ensures Splice(Splice(m, p, a), p, b) == Splice(m, p, b)
  {
  }

  /** Clear a block header and fill it in. */
  method FillHeader(mem: array<byte>, p: nat, h: BlockHeader)
    requires p + DD_BLOCK <= mem.Length
    modifies mem
    ensures mem[..] == Splice(old(mem[..]), p, HeaderBytes(h))
  {
    SpliceOver(mem[..], p, Zeros(DD_BLOCK), HeaderBytes(h));
    Clear(mem, p, DD_BLOCK);
    ghost var m := mem[..];
    WriteU32(mem, p, h.offset);
    SpliceTwice(m, p, U32Bytes(h.offset), U32Bytes(h.size));
    WriteU32(mem, p + 4, h.size);
    SpliceTwice(m, p, U32Bytes(h.offset) + U32Bytes(h.size), [h.level, 0, 0, 0]);
    CopyInto(mem, p + 8, [h.level, 0, 0, 0]);
  }

  /** Moving the blocks up, storing the new one behind them and its header in the gap puts the pieces in order. */
  lemma Assembled(m: seq<byte>, meta: nat, size: nat, header: seq<byte>, data: seq<byte>)
    requires meta <= size && size + |header| + |data| == |m|
    ensures var moved := Splice(m, meta + |header|, m[meta..size]);
      var stored := Splice(moved, size + |header|, data);
      Splice(stored, meta, header) == m[..meta] + header + m[meta..size] + data
  {
    var moved := Splice(m, meta + |header|, m[meta..size]);
    var stored := Splice(moved, size + |header|, data);
    assert stored[meta + |header|..] == m[meta..size] + data;
    assert stored[..meta] == m[..meta];
  }

  /** With the count raised these are the pieces of the new container. */
  lemma JoinedPieces(m: seq<byte>, meta: nat, header: seq<byte>, blocks: seq<byte>, data: seq<byte>)
    requires DD_HEADER <= meta <= |m| && m[4] < 255
    ensures (m[..meta] + header + blocks + data)[4 := m[4] + 1]
      == Joined(m[..DD_HEADER], m[DD_HEADER..meta], header, blocks, data)
  {
    assert m[..meta] == m[..DD_HEADER] + m[DD_HEADER..meta];
  }

  lemma SplicedSlices(m: seq<byte>, d: seq<byte>, size: nat)
    requires DD_HEADER + |d| <= size <= |m|
    ensures Splice(m, DD_HEADER, d)[..DD_HEADER] == m[..DD_HEADER]
    ensures Splice(m, DD_HEADER, d)[DD_HEADER..DD_HEADER + |d|] == d
    ensures Splice(m, DD_HEADER, d)[DD_HEADER + |d|..size] == m[DD_HEADER + |d|..size]
  {
  }

  /** The container that placing a block makes of the buffer m. */
  function PiecesOf(m: seq<byte>, meta: nat, size: nat, h: BlockHeader, data: seq<byte>): seq<byte>
    requires DD_HEADER <= meta <= size <= |m| && m[4] < 255
  {
    Joined(m[..DD_HEADER], m[DD_HEADER..meta], HeaderBytes(h), m[meta..size], data)
  }

  /** The buffer m1 with its offsets raised leads to the new container. */
  lemma ReadyToPlace(m: seq<byte>, m1: seq<byte>, meta: nat, size: u32, level: byte, data: seq<byte>)
    requires Extensible(m, |data|) && m1 == Splice(m, DD_HEADER, AllShifted(m, Count(m)))
    requires meta == MetaSize(m) && size == ContainerSize(m)
    ensures |m1| == |m| && m1[4] == m[4]
    ensures PiecesOf(m1, meta, size, BlockHeader(size + DD_BLOCK, |data|, level), data) == Added(m, level, data)
  {
    SplicedSlices(m, AllShifted(m, Count(m)), size);
    assert m1[4] == m1[..DD_HEADER][4];
    AddedIs(m, level, data, m1[..DD_HEADER], m1[DD_HEADER..meta], size, m1[meta..size]);
  }

  /** Insert a block into a buffer that has been enlarged for it. */
  method InsertBlock(mem: array<byte>, level: byte, data: seq<byte>)
    requires Extensible(mem[..], |data|) && mem.Length == ContainerSize(mem[..]) + DD_BLOCK + |data|
    modifies mem
    ensures mem[..] == Added(old(mem[..]), level, data)
  {
    ghost var m := mem[..];
    var size := SizeOf(mem);
    var meta := SizeOfMeta(mem);
    ShiftOffsets(mem);
    ReadyToPlace(m, mem[..], meta, size, level, data);
    PlaceBlock(mem, meta, size, BlockHeader(size + DD_BLOCK, |data|, level), data, Added(m, level, data));
  }

  /** Move the blocks up, store the data and its header, and count the new block. */
  method PlaceBlock(mem: array<byte>, meta: nat, size: nat, h: BlockHeader, data: seq<byte>, ghost target: seq<byte>)
    requires DD_HEADER <= meta <= size && mem.Length == size + DD_BLOCK + |data| && mem[..][4] < 255
    requires PiecesOf(mem[..], meta, size, h, data) == target
    modifies mem
    ensures mem[..] == target
  {
    ghost var m := mem[..];
    Assembled(m, meta, size, HeaderBytes(h), data);
    JoinedPieces(m, meta, HeaderBytes(h), m[meta..size], data);
    MoveUp(mem, meta, size - meta, DD_BLOCK);
    CopyInto(mem, size + DD_BLOCK, data);
    FillHeader(mem, meta, h);
    ghost var placed := m[..meta] + HeaderBytes(h) + m[meta..size] + data;
    assert mem[..] == placed;
    assert mem[4] == placed[4] == m[4];
    mem[4] := mem[4] + 1;
    assert mem[..] == placed[4 := m[4] + 1];
  }

  // ---- the add itself

  /** Two buffers agree on the first n bytes. */
  ghost predicate Agree(m: seq<byte>, m': seq<byte>, n: nat) {
    n <= |m| && n <= |m'| && forall p :: 0 <= p < n ==> m'[p] == m[p]
  }

  lemma AgreeSlice(m: seq<byte>, m': seq<byte>, n: nat, lo: nat, hi: nat)
    requires Agree(m, m', n) && lo <= hi <= n
    ensures m'[lo..hi] == m[lo..hi] && m'[..hi] == m[..hi]
  {
  }

  lemma SameHeader(m: seq<byte>, m': seq<byte>, n: nat, k: nat)
    requires Agree(m, m', n) && DD_HEADER <= n && MetaSize(m) <= n && k < Count(m)
    ensures HeaderOf(m', k) == HeaderOf(m, k) && Shifted(m', k) == Shifted(m, k)
  {
    var p := DD_HEADER + DD_BLOCK * k;
    AgreeSlice(m, m', n, p + 4, p + DD_BLOCK);
  }

  lemma SameShifted(m: seq<byte>, m': seq<byte>, n: nat)
    requires Agree(m, m', n) && DD_HEADER <= n && MetaSize(m) <= n
    ensures ShiftedHeaders(m') == ShiftedHeaders(m)
  {
    forall k | 0 <= k < Count(m) ensures ShiftedHeaders(m')[k] == ShiftedHeaders(m)[k] {
      SameHeader(m, m', n, k);
    }
  }

  lemma SameSize(m: seq<byte>, m': seq<byte>, n: nat)
    requires Extensible(m, n) && Agree(m, m', ContainerSize(m))
    ensures Extensible(m', n) && MetaSize(m') == MetaSize(m) && ContainerSize(m') == ContainerSize(m)
  {
    if Count(m) > 0 {
      SameHeader(m, m', ContainerSize(m), Count(m) - 1);
    }
  }

  /** What add computes depends on the bytes of the container only, not on the block that holds it. */
  lemma SameContainer(m: seq<byte>, m': seq<byte>, level: byte, data: seq<byte>)
    requires Extensible(m, |data|) && Agree(m, m', ContainerSize(m))
    ensures Extensible(m', |data|) && ContainerSize(m') == ContainerSize(m)
      && Added(m', level, data) == Added(m, level, data)
  {
    var size := ContainerSize(m);
    SameSize(m, m', |data|);
    SameShifted(m, m', size);
    AgreeSlice(m, m', size, 0, DD_HEADER);
    AgreeSlice(m, m', size, MetaSize(m), size);
    AddedIs(m, level, data, m[..DD_HEADER], AllShifted(m, Count(m)), size, m[MetaSize(m)..size]);
    AddedIs(m', level, data, m[..DD_HEADER], AllShifted(m, Count(m)), size, m[MetaSize(m)..size]);
  }

  lemma AddedIs(m: seq<byte>, level: byte, data: seq<byte>, first: seq<byte>, headers: seq<byte>, size: u32,
                blocks: seq<byte>)
    requires Extensible(m, |data|) && size == ContainerSize(m)
    requires first == m[..DD_HEADER] && headers == AllShifted(m, Count(m)) && blocks == m[MetaSize(m)..size]
    ensures Added(m, level, data)
      == Joined(first, headers, HeaderBytes(BlockHeader(size + DD_BLOCK, |data|, level)), blocks, data)
  {
  }

  /** p9_dd_add: enlarge the container, made on the first call, by a block for a level it does not have. */
  method Add(cont: array?<byte>, level: byte, data: seq<byte>)
      returns (rc: DdRc, cont': array?<byte>, size: nat, ghost start: seq<byte>)
    requires cont == null ==> DD_HEADER + DD_BLOCK + |data| < U32_LIMIT
    requires cont != null ==>
      Readable(cont[..]) && (AddRc(cont[..], level) == DdSuccess ==> Extensible(cont[..], |data|))
    ensures if cont == null then Created(start) else start == cont[..]
    ensures rc == if cont == null then DdSuccess else AddRc(start, level)
    ensures rc == DdSuccess ==> cont' != null && fresh(cont') && Extensible(start, |data|)
    ensures rc == DdSuccess ==> cont'[..] == Added(start, level, data) && size == cont'.Length
    ensures rc != DdSuccess ==> cont' == cont
  {
    var found := GetBlock(cont, 0, level);
    assert cont != null ==> cont[0..] == cont[..];
    cont', size := cont, 0;
    start := if cont == null then [] else cont[..];
    var c: array<byte>;
    if found == Missing(DoesNotExist) {
      c := Create();
      start := c[..];
    } else if found == Missing(LevelNotFound) {
      c := cont;
    } else {
      rc := if found.Found? then DuplicateLevel else found.rc;
      return;
    }
    size := SizeOf(c);
    size := size + DD_BLOCK + |data|;
    c := Realloc(c, size);
    SameContainer(start, c[..], level, data);
    InsertBlock(c, level, data);
    cont' := c;
    rc := DdSuccess;
  }
}
