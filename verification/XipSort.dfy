/** xipQuickSort: the TOC is sorted in place, in the memory of the image, with an explicit stack. */
module XipSort {
  import opened Bytes
  import opened CStrings
  import opened Memory
  import opened XipTypes
  import opened XipToc
  import opened XipSortSpec
  import opened XipSortStack

  /** Slots of the stack in xipQuickSort. */
  const SORT_STACK_SLOTS := 64

  /** The names that stay put while the table is sorted: m agrees with `was` on the strings
      from lo to hi, the last of which ends there. */
  ghost predicate SameStrings(was: seq<byte>, m: seq<byte>, lo: nat, hi: nat) {
    lo < hi <= |was| && hi <= |m| && m[lo..hi] == was[lo..hi] && was[hi - 1] == 0
  }

  function Key(m: seq<byte>, lo: nat, e: TocEntry): seq<byte> {
    CString(m, lo + e.id)
  }

  function KeysOf(m: seq<byte>, lo: nat, t: seq<TocEntry>): (ks: Keys)
    ensures |ks| == |t| && forall k :: 0 <= k < |t| ==> ks[k] == Key(m, lo, t[k])
  {
    seq(|t|, k requires 0 <= k < |t| => Key(m, lo, t[k]))
  }

  ghost predicate NamesInside(t: seq<TocEntry>, len: nat) {
    forall k :: 0 <= k < |t| ==> t[k].id < len
  }

  /** strcmp of two strings in memory. */
  method StrCmpAt(mem: array<byte>, a: nat, b: nat) returns (c: int)
    ensures c == StrCmp(CString(mem[..], a), CString(mem[..], b))
  {
    var i := 0;
    while a + i < mem.Length && b + i < mem.Length && mem[a + i] != 0 && mem[a + i] == mem[b + i]
      invariant StrCmp(CString(mem[..], a), CString(mem[..], b))
        == StrCmp(CString(mem[..], a + i), CString(mem[..], b + i))
      decreases mem.Length - i
    {
      i := i + 1;
    }
    var x := if a + i < mem.Length then mem[a + i] else 0;
    var y := if b + i < mem.Length then mem[b + i] else 0;
    c := if x == y then 0 else if x < y then -1 else 1;
  }

  method WriteToc(mem: array<byte>, p: nat, e: TocEntry)
    requires p + TOC_ENTRY <= mem.Length
    modifies mem
    ensures mem[..] == Splice(old(mem[..]), p, TocBytes(e))
  {
    CopyInto(mem, p, TocBytes(e));
  }

  /** Memory differs at most in the len bytes from base on. */
  ghost predicate TableOnly(m: seq<byte>, m': seq<byte>, base: nat, len: nat) {
    |m'| == |m| && base + len <= |m| && m'[..base] == m[..base] && m'[base + len..] == m[base + len..]
  }

  /** Everything the sort relies on: the table lies in memory beside the strings that name its entries. */
  ghost predicate Ready(was: seq<byte>, m: seq<byte>, base: nat, n: nat, lo: nat, hi: nat) {
    && base + TOC_ENTRY * n <= |m| && (base + TOC_ENTRY * n <= lo || hi <= base)
    && SameStrings(was, m, lo, hi) && NamesInside(TocView(m, base, n), hi - lo)
  }

  /** The keys of the table as it stands in memory. */
  ghost function TableKeys(was: seq<byte>, m: seq<byte>, base: nat, n: nat, lo: nat): Keys
    requires base + TOC_ENTRY * n <= |m|
  {
    KeysOf(was, lo, TocView(m, base, n))
  }

  lemma EntryWritten(m: seq<byte>, base: nat, n: nat, i: nat, e: TocEntry)
    requires base + TOC_ENTRY * n <= |m| && i < n
    ensures base + TOC_ENTRY * i + TOC_ENTRY <= |m|
    ensures TocView(Splice(m, base + TOC_ENTRY * i, TocBytes(e)), base, n) == TocView(m, base, n)[i := e]
  {
    var m' := Splice(m, base + TOC_ENTRY * i, TocBytes(e));
    TocWritten(m, base + TOC_ENTRY * i, e);
    forall k | 0 <= k < n
      ensures TocAt(m', base + TOC_ENTRY * k) == if k == i then e else TocAt(m, base + TOC_ENTRY * k)
    {
      EntriesApart(base, k, i);
    }
    assert TocView(m', base, n) == TocView(m, base, n)[i := e];
  }

  lemma EntriesApart(base: nat, k: nat, i: nat)
    ensures k < i ==> base + TOC_ENTRY * k + TOC_ENTRY <= base + TOC_ENTRY * i
    ensures k > i ==> base + TOC_ENTRY * i + TOC_ENTRY <= base + TOC_ENTRY * k
  {
  }

  lemma WrittenInside(m: seq<byte>, base: nat, n: nat, i: nat, e: TocEntry)
    requires base + TOC_ENTRY * n <= |m| && i < n
    ensures base + TOC_ENTRY * i + TOC_ENTRY <= |m|
    ensures TableOnly(m, Splice(m, base + TOC_ENTRY * i, TocBytes(e)), base, TOC_ENTRY * n)
  {
    var p := base + TOC_ENTRY * i;
    SpliceSlices(m, p, TocBytes(e), 0, base);
    SpliceSlices(m, p, TocBytes(e), base + TOC_ENTRY * n, |m|);
  }

  /** Exchange two entries of the table. */
  method SwapEntries(mem: array<byte>, base: nat, n: nat, i: nat, j: nat)
    requires base + TOC_ENTRY * n <= mem.Length && i < n && j < n
    modifies mem
    ensures TocView(mem[..], base, n) == Swapped(old(TocView(mem[..], base, n)), i, j)
    ensures TableOnly(old(mem[..]), mem[..], base, TOC_ENTRY * n)
  {
    ghost var m0 := mem[..];
    var temp := ReadToc(mem, base + TOC_ENTRY * i);
    var other := ReadToc(mem, base + TOC_ENTRY * j);
    EntryWritten(m0, base, n, i, other);
    WrittenInside(m0, base, n, i, other);
    WriteToc(mem, base + TOC_ENTRY * i, other);
    ghost var m1 := mem[..];
    EntryWritten(m1, base, n, j, temp);
    WrittenInside(m1, base, n, j, temp);
    WriteToc(mem, base + TOC_ENTRY * j, temp);
  }

  lemma ReadyAfterSwap(was: seq<byte>, m: seq<byte>, m': seq<byte>, base: nat, n: nat, lo: nat, hi: nat, i: nat, j: nat)
    requires Ready(was, m, base, n, lo, hi) && i < n && j < n && TableOnly(m, m', base, TOC_ENTRY * n)
    requires TocView(m', base, n) == Swapped(TocView(m, base, n), i, j)
    ensures Ready(was, m', base, n, lo, hi)
    ensures KeysOf(was, lo, TocView(m', base, n)) == Swapped(KeysOf(was, lo, TocView(m, base, n)), i, j)
  {
    OutsideKept(m, m', base, TOC_ENTRY * n, lo, hi);
  }

  lemma OutsideKept(m: seq<byte>, m': seq<byte>, base: nat, len: nat, lo: nat, hi: nat)
    requires TableOnly(m, m', base, len) && lo <= hi <= |m| && (base + len <= lo || hi <= base)
    ensures m'[lo..hi] == m[lo..hi]
  {
    if hi <= base {
      PrefixSlice(m, base, lo, hi);
      PrefixSlice(m', base, lo, hi);
    } else {
      var end := base + len;
      assert m[end..][lo - end..hi - end] == m[lo..hi];
      assert m'[end..][lo - end..hi - end] == m'[lo..hi];
    }
  }

  /** Compare two entries by name. */
  method CompareToc(mem: array<byte>, lo: nat, a: TocEntry, b: TocEntry, ghost was: seq<byte>, ghost hi: nat)
      returns (c: int)
    requires SameStrings(was, mem[..], lo, hi) && lo + a.id < hi && lo + b.id < hi
    ensures c == StrCmp(Key(was, lo, a), Key(was, lo, b))
  {
    c := StrCmpAt(mem, lo + a.id, lo + b.id);
    CStringMoves(was, lo, hi, mem[..], lo, a.id);
    CStringMoves(was, lo, hi, mem[..], lo, b.id);
  }

  /** Compare entry k of the table with the pivot. */
  method CompareWithPivot(mem: array<byte>, base: nat, n: nat, lo: nat, k: nat, pivot: TocEntry,
                          ghost was: seq<byte>, ghost hi: nat, ghost ks: Keys) returns (c: int)
    requires Ready(was, mem[..], base, n, lo, hi) && lo + pivot.id < hi && k < n
    requires ks == TableKeys(was, mem[..], base, n, lo)
    ensures c == StrCmp(ks[k], Key(was, lo, pivot))
  {
    var e := ReadToc(mem, base + TOC_ENTRY * k);
    assert e == TocView(mem[..], base, n)[k];
    c := CompareToc(mem, lo, e, pivot, was, hi);
  }

  /** Advance i past the entries below the pivot. There is no bounds test: an entry not below the pivot,
      at `stop`, ends the scan in the range. */
  method ScanUp(mem: array<byte>, base: nat, n: nat, lo: nat, pivot: TocEntry, from: nat,
                ghost stop: nat, ghost was: seq<byte>, ghost hi: nat) returns (i: nat)
    requires Ready(was, mem[..], base, n, lo, hi) && lo + pivot.id < hi && from <= stop < n
    requires LessEq(Key(was, lo, pivot), TableKeys(was, mem[..], base, n, lo)[stop])
    ensures from <= i <= stop && i == Up(TableKeys(was, mem[..], base, n, lo), Key(was, lo, pivot), from)
  {
    ghost var ks, key := TableKeys(was, mem[..], base, n, lo), Key(was, lo, pivot);
    i := from;
    var c := CompareWithPivot(mem, base, n, lo, i, pivot, was, hi, ks);
    while c < 0
      invariant ScanningUp(ks, key, from, i, stop) && c == StrCmp(ks[i], key)
      decreases stop - i
    {
      ScanUpStep(ks, key, from, i, stop);
      i := i + 1;
      c := CompareWithPivot(mem, base, n, lo, i, pivot, was, hi, ks);
    }
    ScanUpEnds(ks, key, from, i, stop);
  }

  /** Move j down past the entries above the pivot, ended in the range by an entry not above it. */
  method ScanDown(mem: array<byte>, base: nat, n: nat, lo: nat, pivot: TocEntry, from: nat,
                  ghost stop: nat, ghost was: seq<byte>, ghost hi: nat) returns (j: nat)
    requires Ready(was, mem[..], base, n, lo, hi) && lo + pivot.id < hi && stop <= from < n
    requires LessEq(TableKeys(was, mem[..], base, n, lo)[stop], Key(was, lo, pivot))
    ensures stop <= j <= from && j == Down(TableKeys(was, mem[..], base, n, lo), Key(was, lo, pivot), from)
  {
    ghost var ks, key := TableKeys(was, mem[..], base, n, lo), Key(was, lo, pivot);
    j := from;
    var c := CompareWithPivot(mem, base, n, lo, j, pivot, was, hi, ks);
    while c > 0
      invariant ScanningDown(ks, key, from, j, stop) && c == StrCmp(ks[j], key)
      decreases j - stop
    {
      ScanDownStep(ks, key, from, j, stop);
      j := j - 1;
      c := CompareWithPivot(mem, base, n, lo, j, pivot, was, hi, ks);
    }
    ScanDownEnds(ks, key, from, j, stop);
  }

  /** The table of m0 rearranged: the same entries, and no other byte changed. */
  ghost predicate Rearranged(was: seq<byte>, m0: seq<byte>, m: seq<byte>, base: nat, n: nat, lo: nat, hi: nat) {
    && Ready(was, m, base, n, lo, hi) && TableOnly(m0, m, base, TOC_ENTRY * n)
    && multiset(TocView(m, base, n)) == multiset(TocView(m0, base, n))
  }

  method ExchangeEntries(mem: array<byte>, base: nat, n: nat, lo: nat, i: nat, j: nat,
                         ghost was: seq<byte>, ghost hi: nat, ghost m0: seq<byte>)
    requires Rearranged(was, m0, mem[..], base, n, lo, hi) && i < n && j < n
    modifies mem
    ensures Rearranged(was, m0, mem[..], base, n, lo, hi)
    ensures TableKeys(was, mem[..], base, n, lo) == Swapped(old(TableKeys(was, mem[..], base, n, lo)), i, j)
  {
    ghost var m := mem[..];
    SwapEntries(mem, base, n, i, j);
    ExchangeInTable(was, m0, m, mem[..], base, n, lo, hi, i, j);
  }

  /** Scan from both ends. The sentinels keep both scans in the range. */
  method ScanBoth(mem: array<byte>, base: nat, n: nat, lo: nat, pivot: TocEntry, i: nat, j: nat, ghost q: Range,
                  ghost up: nat, ghost down: nat, ghost was: seq<byte>, ghost hi: nat) returns (i': nat, j': nat)
    requires Ready(was, mem[..], base, n, lo, hi) && lo + pivot.id < hi && i <= j
    requires Scanning(TableKeys(was, mem[..], base, n, lo), q, i, j, up, down, Key(was, lo, pivot))
    ensures i' == Up(TableKeys(was, mem[..], base, n, lo), Key(was, lo, pivot), i) && q.Has(i')
    ensures j < n && j' == Down(TableKeys(was, mem[..], base, n, lo), Key(was, lo, pivot), j) && q.Has(j')
  {
    i' := ScanUp(mem, base, n, lo, pivot, i, up, was, hi);
    j' := ScanDown(mem, base, n, lo, pivot, j, down, was, hi);
  }

  /** One turn of the pass: scan from both ends, then exchange the two entries found unless the scans have
      passed each other. */
  method ScanAndExchange(mem: array<byte>, base: nat, n: nat, lo: nat, pivot: TocEntry, i: nat, j: nat, ghost q: Range,
                         ghost up: nat, ghost down: nat, ghost was: seq<byte>, ghost hi: nat, ghost m0: seq<byte>)
      returns (i': int, j': int)
    requires Rearranged(was, m0, mem[..], base, n, lo, hi) && lo + pivot.id < hi && i <= j
    requires Scanning(TableKeys(was, mem[..], base, n, lo), q, i, j, up, down, Key(was, lo, pivot))
    modifies mem
    ensures Rearranged(was, m0, mem[..], base, n, lo, hi) && j < n
    ensures Pass(TableKeys(was, mem[..], base, n, lo), i', j')
      == Turn(old(TableKeys(was, mem[..], base, n, lo)), Key(was, lo, pivot), i, j)
  {
    i', j' := ScanBoth(mem, base, n, lo, pivot, i, j, q, up, down, was, hi);
    TurnIs(TableKeys(was, mem[..], base, n, lo), Key(was, lo, pivot), i, j, i', j');
    if i' <= j' {
      ExchangeEntries(mem, base, n, lo, i', j', was, hi, m0);
      i' := i' + 1;
      j' := j' - 1;
    }
  }

  /** The pass has come to i and j: the keys in the table lead to the same end as those it started from. */
  ghost predicate Passing(ks: Keys, q: Range, i: int, j: int, up: int, down: int, pivot: seq<byte>, end: Pass) {
    Scanning(ks, q, i, j, up, down, pivot) && Fenced(ks, q) && RunPass(ks, pivot, i, j) == end
  }

  lemma PassStarts(ks: Keys, q: Range, mid: int, pivot: seq<byte>, end: Pass)
    requires Fenced(ks, q) && mid == (q.left + q.right) / 2 && pivot == ks[mid] && end == PassOf(ks, q)
    ensures Passing(ks, q, q.left, q.right, mid, mid, pivot, end)
  {
  }

  lemma PassTurn(ks: Keys, q: Range, i: nat, j: int, up: int, down: int, pivot: seq<byte>, end: Pass, ks': Keys,
                 i': int, j': int)
      returns (up': int, down': int)
    requires Passing(ks, q, i, j, up, down, pivot, end) && i <= j && Pass(ks', i', j') == Turn(ks, pivot, i, j)
    ensures Passing(ks', q, i', j', up', down', pivot, end)
  {
    up', down' := TurnScans(ks, q, i, j, up, down, pivot);
  }

  method PassStep(mem: array<byte>, base: nat, n: nat, lo: nat, pivot: TocEntry, i: nat, j: nat, ghost q: Range,
                  ghost up: int, ghost down: int, ghost was: seq<byte>, ghost hi: nat, ghost m0: seq<byte>,
                  ghost end: Pass)
      returns (i': int, j': int, ghost up': int, ghost down': int)
    requires Rearranged(was, m0, mem[..], base, n, lo, hi) && lo + pivot.id < hi && i <= j
    requires Passing(TableKeys(was, mem[..], base, n, lo), q, i, j, up, down, Key(was, lo, pivot), end)
    modifies mem
    ensures Rearranged(was, m0, mem[..], base, n, lo, hi) && (i' <= j' ==> j' - i' < j - i)
    ensures Passing(TableKeys(was, mem[..], base, n, lo), q, i', j', up', down', Key(was, lo, pivot), end)
  {
    ghost var ks := TableKeys(was, mem[..], base, n, lo);
    i', j' := ScanAndExchange(mem, base, n, lo, pivot, i, j, q, up, down, was, hi, m0);
    up', down' := PassTurn(ks, q, i, j, up, down, Key(was, lo, pivot), end,
      TableKeys(was, mem[..], base, n, lo), i', j');
  }

  /** One pass over left..right: exchange entries until none above the pivot is left of one below it. */
  method Partition(mem: array<byte>, base: nat, n: nat, lo: nat, left: nat, right: nat,
                   ghost was: seq<byte>, ghost hi: nat) returns (i: int, j: int)
    requires Ready(was, mem[..], base, n, lo, hi) && left <= right < n
    requires Fenced(TableKeys(was, mem[..], base, n, lo), Range(left, right))
    modifies mem
    ensures Rearranged(was, old(mem[..]), mem[..], base, n, lo, hi)
    ensures Pass(TableKeys(was, mem[..], base, n, lo), i, j)
      == PassOf(old(TableKeys(was, mem[..], base, n, lo)), Range(left, right))
  {
    ghost var q, m0, ks := Range(left, right), mem[..], TableKeys(was, mem[..], base, n, lo);
    ghost var end := PassOf(ks, q);
    i, j := left, right;
    var pivot := ReadToc(mem, base + TOC_ENTRY * ((i + j) / 2));
    assert pivot == TocView(mem[..], base, n)[(i + j) / 2];
    ghost var up, down := (i + j) / 2, (i + j) / 2;
    PassStarts(ks, q, up, Key(was, lo, pivot), end);
    assert Passing(ks, q, i, j, up, down, Key(was, lo, pivot), end);
    while i <= j
      invariant Rearranged(was, m0, mem[..], base, n, lo, hi)
      invariant Passing(TableKeys(was, mem[..], base, n, lo), q, i, j, up, down, Key(was, lo, pivot), end)
      decreases if i <= j then j - i + 1 else 0
    {
      i, j, up, down := PassStep(mem, base, n, lo, pivot, i, j, q, up, down, was, hi, m0, end);
    }
  }

  lemma ExchangeInTable(was: seq<byte>, m0: seq<byte>, m: seq<byte>, m': seq<byte>, base: nat, n: nat, lo: nat, hi: nat,
                        i: nat, j: nat)
    requires Rearranged(was, m0, m, base, n, lo, hi) && i < n && j < n
    requires TableOnly(m, m', base, TOC_ENTRY * n) && TocView(m', base, n) == Swapped(TocView(m, base, n), i, j)
    ensures Rearranged(was, m0, m', base, n, lo, hi)
    ensures TableKeys(was, m', base, n, lo) == Swapped(TableKeys(was, m, base, n, lo), i, j)
  {
    ReadyAfterSwap(was, m, m', base, n, lo, hi, i, j);
    assert multiset(TocView(m', base, n)) == multiset(TocView(m, base, n));
  }

  /** The stack's used slots hold the pending ranges, two slots each. */
  ghost predicate Holds(stack: seq<u32>, sp: nat, pending: seq<Range>) {
    && sp == 2 * |pending| <= |stack|
    && forall k :: 0 <= k < |pending| ==> pending[k] == Range(stack[2 * k], stack[2 * k + 1])
  }

  /** Push a range if it has at least two entries. */
  method PushRange(stack: array<u32>, sp: nat, left: int, right: int, ghost pending: seq<Range>)
      returns (sp': nat, ghost pending': seq<Range>)
    requires Holds(stack[..], sp, pending)
    requires left < right ==> 0 <= left && right < U32_LIMIT && sp + 2 <= stack.Length
    modifies stack
    ensures pending' == if left < right then pending + [Range(left, right)] else pending
    ensures Holds(stack[..], sp', pending')
  {
    sp', pending' := sp, pending;
    if left < right {
      stack[sp] := left;
      stack[sp + 1] := right;
      sp' := sp + 2;
      pending' := pending + [Range(left, right)];
    }
  }

  /** The state between passes: the table is the original one rearranged, and the stack has the slots that
      sorting the pending ranges takes. */
  ghost predicate SortState(was: seq<byte>, m0: seq<byte>, m: seq<byte>, base: nat, n: nat, lo: nat, hi: nat,
                            pending: seq<Range>, slots: nat) {
    Rearranged(was, m0, m, base, n, lo, hi) && Fits(TableKeys(was, m, base, n, lo), pending, slots)
  }

  lemma AfterPass(was: seq<byte>, m0: seq<byte>, m: seq<byte>, m': seq<byte>, base: nat, n: nat, lo: nat, hi: nat,
                  rest: seq<Range>, q: Range, i: int, j: int, slots: nat)
    requires SortState(was, m0, m, base, n, lo, hi, rest + [q], slots) && 0 <= q.left <= q.right < n
    requires Rearranged(was, m, m', base, n, lo, hi)
    requires Pass(TableKeys(was, m', base, n, lo), i, j) == PassOf(TableKeys(was, m, base, n, lo), q)
    ensures SortState(was, m0, m', base, n, lo, hi, rest + Pushed(q, i, j), slots)
    ensures q.left < i && j < q.right && 2 * |rest + Pushed(q, i, j)| <= slots
    ensures Work(rest + Pushed(q, i, j)) < Work(rest + [q])
  {
    FitsNext(TableKeys(was, m, base, n, lo), rest, q, slots);
  }

  /** Take the range on top of the stack. */
  method PopRange(stack: array<u32>, sp: nat, ghost pending: seq<Range>)
      returns (sp': nat, left: u32, right: u32, ghost rest: seq<Range>)
    requires Holds(stack[..], sp, pending) && sp > 0
    ensures pending == rest + [Range(left, right)] && Holds(stack[..], sp', rest)
  {
    sp' := sp - 2;
    left, right := stack[sp'], stack[sp' + 1];
    rest := pending[..|pending| - 1];
    assert pending == rest + [pending[|pending| - 1]];
  }

  /** Push the halves left by a pass, left one first. */
  method PushHalves(stack: array<u32>, sp: nat, ghost rest: seq<Range>, q: Range, i: int, j: int)
      returns (sp': nat, ghost pending: seq<Range>)
    requires Holds(stack[..], sp, rest) && 2 * |rest + Pushed(q, i, j)| <= stack.Length
    requires 0 <= q.left < i && j < q.right < U32_LIMIT
    modifies stack
    ensures pending == rest + Pushed(q, i, j) && Holds(stack[..], sp', pending)
  {
    ghost var half;
    sp', half := PushRange(stack, sp, q.left, j, rest);
    sp', pending := PushRange(stack, sp', i, q.right, half);
  }

  /** One turn of the outer loop: pop a range, partition it, push its halves. */
  method SortTopRange(mem: array<byte>, base: nat, n: nat, lo: nat, stack: array<u32>, sp: nat,
                      ghost pending: seq<Range>, ghost was: seq<byte>, ghost hi: nat, ghost m0: seq<byte>)
      returns (sp': nat, ghost pending': seq<Range>)
    requires SortState(was, m0, mem[..], base, n, lo, hi, pending, stack.Length) && Holds(stack[..], sp, pending)
    requires sp > 0 && n < U32_LIMIT
    modifies mem, stack
    ensures SortState(was, m0, mem[..], base, n, lo, hi, pending', stack.Length) && Holds(stack[..], sp', pending')
    ensures Work(pending') < Work(pending)
  {
    ghost var m := mem[..];
    var left, right;
    ghost var rest;
    sp', left, right, rest := PopRange(stack, sp, pending);
    PoppedIsFenced(TableKeys(was, m, base, n, lo), rest, Range(left, right));
    var i, j;
    i, j := Partition(mem, base, n, lo, left, right, was, hi);
    AfterPass(was, m0, m, mem[..], base, n, lo, hi, rest, Range(left, right), i, j, stack.Length);
    sp', pending' := PushHalves(stack, sp', rest, Range(left, right), i, j);
  }

  /** Sort the table by name, on a stack with as many slots as the keys in the table take. Of an empty table the
      pivot is read all the same, from the bytes at its place; nothing else happens. */
  method QuickSort(mem: array<byte>, base: nat, n: nat, lo: nat, ghost was: seq<byte>, ghost hi: nat,
                   slots: nat := SORT_STACK_SLOTS)
    requires n < U32_LIMIT && base + TOC_ENTRY * (if n == 0 then 1 else n) <= mem.Length
    requires n > 0 ==> Ready(was, mem[..], base, n, lo, hi)
    requires Slots(TableKeys(was, mem[..], base, n, lo)) <= slots
    modifies mem
    ensures if n == 0 then mem[..] == old(mem[..]) else Rearranged(was, old(mem[..]), mem[..], base, n, lo, hi)
    ensures Sorted(TableKeys(was, mem[..], base, n, lo))
  {
    if n == 0 {
      var pivot := ReadToc(mem, base);
    } else {
      SortRanges(mem, base, n, lo, was, hi, slots);
    }
  }

  /** The loop over the ranges that are still to be sorted, which starts with the whole table. */
  method SortRanges(mem: array<byte>, base: nat, n: nat, lo: nat, ghost was: seq<byte>, ghost hi: nat, slots: nat)
    requires Ready(was, mem[..], base, n, lo, hi) && 0 < n < U32_LIMIT
    requires Slots(TableKeys(was, mem[..], base, n, lo)) <= slots
    modifies mem
    ensures Rearranged(was, old(mem[..]), mem[..], base, n, lo, hi)
    ensures Sorted(TableKeys(was, mem[..], base, n, lo))
  {
    ghost var m0 := mem[..];
    SlotsAtStart(TableKeys(was, m0, base, n, lo), slots);
    var stack := new u32[slots];
    var sp: nat := 0;
    stack[sp] := 0;
    stack[sp + 1] := n - 1;
    sp := sp + 2;
    ghost var pending := [Range(0, n - 1)];
    assert SortState(was, m0, mem[..], base, n, lo, hi, pending, slots);
    while sp != 0
      invariant SortState(was, m0, mem[..], base, n, lo, hi, pending, slots)
      invariant Holds(stack[..], sp, pending)
      decreases Work(pending)
    {
      WorkNonNegative(n, pending);
      sp, pending := SortTopRange(mem, base, n, lo, stack, sp, pending, was, hi, m0);
    }
    assert pending == [];
    NothingPending(TableKeys(was, mem[..], base, n, lo));
  }
}
