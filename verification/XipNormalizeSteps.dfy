/** One turn of the normalization loop: what writing an entry and its record does to the tables. */
module XipNormalizeSteps {
  import opened Bytes
  import opened XipTypes
  import opened XipLayout
  import opened XipToc
  import opened XipFind
  import opened XipSortSpec
  import opened XipSortStack
  import opened XipSort
  import opened XipNormalize

  function TocCount(st: ImageState): nat
    requires |st.secs| == SECTIONS
  {
    st.secs[TOC].size / TOC_ENTRY
  }

  function RecordCount(st: ImageState): nat
    requires |st.secs| == SECTIONS
  {
    st.secs[FIXED_TOC].size / HASHED_ENTRY
  }

  /** The tables of the image st as they stand in the memory m. */
  ghost predicate InTables(st: ImageState, m: seq<byte>) {
    && Layout(st) && |m| == |st.mem|
    && st.secs[TOC].offset + TOC_ENTRY * TocCount(st) <= |m|
    && st.secs[FIXED_TOC].offset + HASHED_ENTRY * RecordCount(st) <= |m|
  }

  lemma TablesInMemory(st: ImageState, m: seq<byte>)
    requires Layout(st) && |m| == |st.mem|
    ensures InTables(st, m)
  {
    assert InImage(st.secs[TOC], st.size) && InImage(st.secs[FIXED_TOC], st.size);
  }

  ghost function TocIn(st: ImageState, m: seq<byte>): seq<TocEntry>
    requires InTables(st, m)
  {
    TocView(m, st.secs[TOC].offset, TocCount(st))
  }

  ghost function RecordsIn(st: ImageState, m: seq<byte>): seq<HashedToc>
    requires InTables(st, m)
  {
    HashedView(m, st.secs[FIXED_TOC].offset, RecordCount(st))
  }

  /** k entries are normalized and c records written. */
  ghost predicate NormState(st: ImageState, m: seq<byte>, k: nat, c: nat, hash: Hash) {
    && InTables(st, m) && OthersKept(st, m) && k <= TocCount(st) && c <= RecordCount(st)
    && (forall i {:trigger TocIn(st, m)[i]} :: 0 <= i < TocCount(st) ==>
          TocIn(st, m)[i] == if i < k then Normed(st, Toc(st)[i]) else Toc(st)[i])
    && RecordsIn(st, m)[..c] == RecordsBefore(st, Toc(st), k, hash)
  }

  lemma NormStart(st: ImageState, hash: Hash)
    requires Layout(st)
    ensures NormState(st, st.mem, 0, 0, hash)
  {
    TablesInMemory(st, st.mem);
    assert InImage(st.secs[TOC], st.size) && InImage(st.secs[FIXED_TOC], st.size);
    assert TocIn(st, st.mem) == Toc(st);
    assert RecordsIn(st, st.mem)[..0] == [];
  }

  /** Writing inside one section leaves the bytes of the others alone. */
  lemma OtherSectionsKept(st: ImageState, m: seq<byte>, i: nat, p: nat, d: seq<byte>, j: nat)
    requires Layout(st) && |m| == |st.mem| && i < SECTIONS && j < SECTIONS && i != j
    requires d != [] && st.secs[i].offset <= p && p + |d| <= SectionEnd(st.secs[i])
    ensures SectionEnd(st.secs[i]) <= |m| && SectionEnd(st.secs[j]) <= |m|
    ensures Splice(m, p, d)[st.secs[j].offset..SectionEnd(st.secs[j])] == m[st.secs[j].offset..SectionEnd(st.secs[j])]
  {
    assert InImage(st.secs[i], st.size) && InImage(st.secs[j], st.size) && Disjoint(st.secs[i], st.secs[j]);
    if st.secs[j].size != 0 {
      SpliceSlices(m, p, d, st.secs[j].offset, SectionEnd(st.secs[j]));
    }
  }

  lemma TableWriteKeepsOthers(st: ImageState, m: seq<byte>, i: nat, p: nat, d: seq<byte>)
    requires Layout(st) && OthersKept(st, m) && (i == TOC || i == FIXED_TOC)
    requires d != [] && st.secs[i].offset <= p && p + |d| <= SectionEnd(st.secs[i])
    ensures SectionEnd(st.secs[i]) <= |m| && OthersKept(st, Splice(m, p, d))
  {
    assert InImage(st.secs[i], st.size);
    var m' := Splice(m, p, d);
    forall j | 0 <= j < SECTIONS
      ensures InImage(st.secs[j], st.size) && (j != TOC && j != FIXED_TOC ==>
        m'[st.secs[j].offset..SectionEnd(st.secs[j])] == st.mem[st.secs[j].offset..SectionEnd(st.secs[j])])
    {
      assert InImage(st.secs[j], st.size);
      if j != TOC && j != FIXED_TOC {
        OtherSectionsKept(st, m, i, p, d, j);
      }
    }
  }

  /** Writing record c of .fixed_toc. */
  lemma RecordWritten(st: ImageState, m: seq<byte>, c: nat, h: HashedToc)
    requires InTables(st, m) && OthersKept(st, m) && c < RecordCount(st)
    ensures var m' := Splice(m, st.secs[FIXED_TOC].offset + HASHED_ENTRY * c, HashedBytes(h));
      && InTables(st, m') && OthersKept(st, m') && TocIn(st, m') == TocIn(st, m)
      && RecordsIn(st, m') == RecordsIn(st, m)[c := h]
  {
    var base, n := st.secs[FIXED_TOC].offset, RecordCount(st);
    var p := base + HASHED_ENTRY * c;
    var m' := Splice(m, p, HashedBytes(h));
    TableWriteKeepsOthers(st, m, FIXED_TOC, p, HashedBytes(h));
    HashedWritten(m, p, h);
    forall q | 0 <= q < n
      ensures HashedAt(m', base + HASHED_ENTRY * q) == if q == c then h else HashedAt(m, base + HASHED_ENTRY * q)
    {
      assert q < c ==> base + HASHED_ENTRY * q + HASHED_ENTRY <= p;
      assert q > c ==> p + HASHED_ENTRY <= base + HASHED_ENTRY * q;
    }
    assert RecordsIn(st, m') == RecordsIn(st, m)[c := h];
    OtherSectionsKept(st, m, FIXED_TOC, p, HashedBytes(h), TOC);
    TocViewMoves(m, st.secs[TOC].offset, m', st.secs[TOC].offset, TocCount(st), st.secs[TOC].size);
  }

  /** Writing entry k of .toc. */
  lemma EntryReplaced(st: ImageState, m: seq<byte>, k: nat, e: TocEntry)
    requires InTables(st, m) && OthersKept(st, m) && k < TocCount(st)
    ensures var m' := Splice(m, st.secs[TOC].offset + TOC_ENTRY * k, TocBytes(e));
      && InTables(st, m') && OthersKept(st, m') && RecordsIn(st, m') == RecordsIn(st, m)
      && TocIn(st, m') == TocIn(st, m)[k := e]
  {
    var p := st.secs[TOC].offset + TOC_ENTRY * k;
    var m' := Splice(m, p, TocBytes(e));
    TableWriteKeepsOthers(st, m, TOC, p, TocBytes(e));
    EntryWritten(m, st.secs[TOC].offset, TocCount(st), k, e);
    OtherSectionsKept(st, m, TOC, p, TocBytes(e), FIXED_TOC);
    HashedViewMoves(m, st.secs[FIXED_TOC].offset, m', st.secs[FIXED_TOC].offset, RecordCount(st),
      st.secs[FIXED_TOC].size);
  }

  // ---- one turn

  /** The memory after the record of a normalized entry has been written, when its data lies in .fixed. */
  ghost function RecordStep(st: ImageState, m: seq<byte>, c: nat, n: TocEntry, hash: Hash): seq<byte>
    requires InTables(st, m) && (InFixed(n) ==> c < RecordCount(st))
  {
    if InFixed(n) then Splice(m, st.secs[FIXED_TOC].offset + HASHED_ENTRY * c, HashedBytes(Record(st, n, hash))) else m
  }

  /** The memory after entry k has been written. */
  ghost function EntryStep(st: ImageState, m: seq<byte>, k: nat, n: TocEntry): seq<byte>
    requires InTables(st, m) && k < TocCount(st)
  {
    Splice(m, st.secs[TOC].offset + TOC_ENTRY * k, TocBytes(n))
  }

  lemma RecordStepState(st: ImageState, m: seq<byte>, c: nat, n: TocEntry, hash: Hash)
    requires InTables(st, m) && OthersKept(st, m) && c <= RecordCount(st) && (InFixed(n) ==> c < RecordCount(st))
    ensures var m' := RecordStep(st, m, c, n, hash);
      && InTables(st, m') && OthersKept(st, m') && TocIn(st, m') == TocIn(st, m)
      && (InFixed(n) ==> RecordsIn(st, m')[..c + 1] == RecordsIn(st, m)[..c] + [Record(st, n, hash)])
      && (!InFixed(n) ==> m' == m)
  {
    if InFixed(n) {
      RecordWritten(st, m, c, Record(st, n, hash));
    }
  }

  /** There is room for the entry and its record. */
  ghost predicate CanTurn(st: ImageState, m: seq<byte>, k: nat, c: nat, n: TocEntry) {
    && InTables(st, m) && OthersKept(st, m) && k < TocCount(st) && c <= RecordCount(st)
    && (InFixed(n) ==> c < RecordCount(st))
  }

  /** The memory after one turn. */
  ghost function TurnMemory(st: ImageState, m: seq<byte>, k: nat, c: nat, n: TocEntry, hash: Hash): seq<byte> {
    if CanTurn(st, m, k, c, n) then
      RecordStepState(st, m, c, n, hash);
      EntryStep(st, RecordStep(st, m, c, n, hash), k, n)
    else m
  }

  lemma TurnTables(st: ImageState, m: seq<byte>, k: nat, c: nat, n: TocEntry, hash: Hash)
    requires CanTurn(st, m, k, c, n)
    ensures var m' := TurnMemory(st, m, k, c, n, hash);
      && InTables(st, m') && OthersKept(st, m') && TocIn(st, m') == TocIn(st, m)[k := n]
      && RecordsIn(st, m')[..c + (if InFixed(n) then 1 else 0)]
         == RecordsIn(st, m)[..c] + (if InFixed(n) then [Record(st, n, hash)] else [])
  {
    RecordStepState(st, m, c, n, hash);
    EntryReplaced(st, RecordStep(st, m, c, n, hash), k, n);
  }

  lemma RecordFree(st: ImageState, e: TocEntry, left: nat)
    requires |st.secs| == SECTIONS && NormRc(st, e, left) == Ok
    ensures InFixed(Normed(st, e)) ==> left > 0
  {
  }

  lemma RecordsNext(st: ImageState, t: seq<TocEntry>, k: nat, hash: Hash)
    requires |st.secs| == SECTIONS && k < |t|
    ensures var n := Normed(st, t[k]);
      RecordsBefore(st, t, k + 1, hash)
      == RecordsBefore(st, t, k, hash) + (if InFixed(n) then [Record(st, n, hash)] else [])
  {
  }

  lemma NormTurn(st: ImageState, m: seq<byte>, k: nat, c: nat, hash: Hash)
    requires NormState(st, m, k, c, hash) && k < TocCount(st)
    requires NormRc(st, Toc(st)[k], RecordCount(st) - c) == Ok
    ensures InFixed(Normed(st, Toc(st)[k])) ==> c < RecordCount(st)
    ensures var n := Normed(st, Toc(st)[k]);
      NormState(st, TurnMemory(st, m, k, c, n, hash), k + 1, c + (if InFixed(n) then 1 else 0), hash)
  {
    RecordFree(st, Toc(st)[k], RecordCount(st) - c);
    TurnTables(st, m, k, c, Normed(st, Toc(st)[k]), hash);
    RecordsNext(st, Toc(st), k, hash);
  }

  // ---- the loop

  /** The return code for entry k when all before it have been normalized. */
  ghost function EntryRc(st: ImageState, k: nat): Rc
    requires Layout(st) && k < TocCount(st)
  {
    EntryCode(st, Toc(st), RecordCount(st), k)
  }

  /** The first k codes are Ok. */
  ghost predicate AllOk(codes: seq<Rc>, k: nat) {
    k <= |codes| && forall i :: 0 <= i < k ==> codes[i] == Ok
  }

  /** Index of the first code, from k on, that is not Ok, or the number of codes. */
  function FirstBad(codes: seq<Rc>, k: nat): (r: nat)
    requires k <= |codes|
    ensures k <= r <= |codes| && (r < |codes| ==> codes[r] != Ok) && forall i :: k <= i < r ==> codes[i] == Ok
    decreases |codes| - k
  {
    if k == |codes| || codes[k] != Ok then k else FirstBad(codes, k + 1)
  }

  ghost function Codes(st: ImageState): (codes: seq<Rc>)
    requires Layout(st)
    ensures |codes| == TocCount(st)
  {
    TocCodes(st, Toc(st), RecordCount(st))
  }

  lemma CodeAt(st: ImageState, k: nat)
    requires Layout(st) && k < TocCount(st)
    ensures Codes(st)[k] == EntryRc(st, k)
  {
  }

  /** The first k entries normalize without error. */
  ghost predicate Reached(st: ImageState, k: nat)
    requires Layout(st)
  {
    AllOk(Codes(st), k)
  }

  /** The first entry that does not normalize, or the number of entries. */
  ghost function Stop(st: ImageState): (r: nat)
    requires Layout(st)
    ensures r <= TocCount(st)
  {
    FirstBad(Codes(st), 0)
  }

  lemma StopIs(codes: seq<Rc>, k: nat)
    requires AllOk(codes, k) && (k < |codes| ==> codes[k] != Ok)
    ensures FirstBad(codes, 0) == k
  {
  }

  lemma StopReached(st: ImageState, k: nat)
    requires Layout(st) && Reached(st, k) && (k < TocCount(st) ==> EntryRc(st, k) != Ok)
    ensures Stop(st) == k
  {
    if k < TocCount(st) {
      CodeAt(st, k);
    }
    StopIs(Codes(st), k);
  }

  lemma ReachedNext(st: ImageState, k: nat)
    requires Layout(st) && k < TocCount(st) && Reached(st, k) && EntryRc(st, k) == Ok
    ensures Reached(st, k + 1)
  {
    CodeAt(st, k);
  }

  lemma FirstReached(st: ImageState, k: nat)
    requires Layout(st) && k == 0 < TocCount(st) && NormRc(st, Toc(st)[k], RecordCount(st)) == Ok
    ensures Reached(st, k + 1)
  {
    ReachedNext(st, k);
  }

  lemma ReachedBefore(st: ImageState, k: nat)
    requires Layout(st) && k < TocCount(st) && Reached(st, k + 1)
    ensures Reached(st, k) && EntryRc(st, k) == Ok
  {
    CodeAt(st, k);
    assert Codes(st)[k] == Ok;
  }

  /** The memory after the first k entries. */
  ghost function NormMemory(st: ImageState, k: nat, hash: Hash): seq<byte>
    requires Layout(st) && k <= TocCount(st)
  {
    if k == 0 then st.mem
    else TurnMemory(st, NormMemory(st, k - 1, hash), k - 1, FixedBefore(st, Toc(st), k - 1),
      Normed(st, Toc(st)[k - 1]), hash)
  }

  /** The state of the tables at entry k. */
  ghost predicate NormStateAt(st: ImageState, k: nat, hash: Hash) {
    Layout(st) && k <= TocCount(st) && NormState(st, NormMemory(st, k, hash), k, FixedBefore(st, Toc(st), k), hash)
  }

  lemma NormFirst(st: ImageState, k: nat, hash: Hash)
    requires Layout(st) && k == 0
    ensures NormStateAt(st, k, hash)
  {
    NormStart(st, hash);
  }

  lemma NormNext(st: ImageState, k: nat, hash: Hash)
    requires NormStateAt(st, k, hash) && k < TocCount(st) && EntryRc(st, k) == Ok
    ensures NormStateAt(st, k + 1, hash)
  {
    var m, c, n := NormMemory(st, k, hash), FixedBefore(st, Toc(st), k), Normed(st, Toc(st)[k]);
    NormTurn(st, m, k, c, hash);
    assert NormMemory(st, k + 1, hash) == TurnMemory(st, m, k, c, n, hash);
    assert FixedBefore(st, Toc(st), k + 1) == c + (if InFixed(n) then 1 else 0);
  }

  lemma {:induction false} NormReached(st: ImageState, k: nat, hash: Hash)
    requires Layout(st) && k <= TocCount(st) && Reached(st, k)
    ensures NormStateAt(st, k, hash)
  {
    if k == 0 {
      NormFirst(st, k, hash);
    } else {
      ReachedBefore(st, k - 1);
      NormReached(st, k - 1, hash);
      NormNext(st, k - 1, hash);
    }
  }

  /** The first error lies after the codes that are Ok. */
  lemma {:induction false} ErrorAfter(codes: seq<Rc>, j: nat, k: nat)
    requires AllOk(codes, k) && j <= k
    ensures FirstError(codes, j) == FirstError(codes, k)
    decreases k - j
  {
    if j < k {
      ErrorAfter(codes, j + 1, k);
    }
  }

  /** The return code of the loop. */
  ghost function LoopRc(st: ImageState): Rc
    requires Layout(st)
  {
    TocRc(st, Toc(st), RecordCount(st))
  }

  /** The loop returns the code of the entry at which it stops. */
  lemma LoopStops(st: ImageState, k: nat)
    requires Layout(st) && k < TocCount(st) && Reached(st, k) && EntryRc(st, k) != Ok
    ensures LoopRc(st) == EntryRc(st, k) && Stop(st) == k
  {
    CodeAt(st, k);
    StopReached(st, k);
    ErrorAfter(Codes(st), 0, k);
  }

  lemma LoopRuns(st: ImageState, k: nat)
    requires Layout(st) && k == TocCount(st) && Reached(st, k)
    ensures LoopRc(st) == Ok && Stop(st) == k
  {
    StopReached(st, k);
    ErrorAfter(Codes(st), 0, k);
  }

  /** What the loop needs to know about its state at entry k. */
  lemma NormLoop(st: ImageState, k: nat, hash: Hash)
    requires Layout(st) && k <= TocCount(st) && Reached(st, k)
    ensures var m := NormMemory(st, k, hash);
      InTables(st, m) && OthersKept(st, m) && (k < TocCount(st) ==> TocIn(st, m)[k] == Toc(st)[k])
    ensures FixedBefore(st, Toc(st), k) <= RecordCount(st)
  {
    NormReached(st, k, hash);
    var m := NormMemory(st, k, hash);
    if k < TocCount(st) {
      assert TocIn(st, m)[k] == Toc(st)[k];
    }
  }

  // ---- the whole normalization

  /** The names of a table with entries end in .strings. */
  ghost predicate NamesEnd(st: ImageState)
    requires Layout(st)
  {
    TocCount(st) > 0 ==> StringsEnd(st)
  }

  /** What sorting needs: a stack with the slots that the names take; names that end in .strings; for an empty
      table, memory to read a pivot from. */
  ghost predicate SortFits(st: ImageState, slots: nat)
    requires Layout(st)
  {
    && Slots(SortKeys(st)) <= slots && NamesEnd(st)
    && (if TocCount(st) == 0 then st.secs[TOC].offset + TOC_ENTRY <= |st.mem| else st.normalized ==> NamesOk(st))
  }

  /** What normalizing needs: names of linked entries that end in .strings, and a table that can be sorted when it
      comes to be. */
  ghost predicate NormalizeAllowed(st: ImageState, hash: Hash, slots: nat)
    requires Layout(st)
  {
    && (QuickCheck(st, false) == Ok && !st.normalized ==> NamesEnd(st))
    && (!st.sorted && NormalizeRc(st, hash) == Ok ==> SortFits(st, slots))
  }

  /** Return code and image of p9_xip_normalize. A failing call marks the image as not normalized and leaves
      the entries before the first error rewritten. */
  ghost predicate NormalizePost(st: ImageState, st': ImageState, rc: Rc, hash: Hash)
    requires Layout(st)
  {
    && rc == NormalizeRc(st, hash)
    && OthersKept(st, st'.mem)
    && if rc != Ok then
         && st' == st.(mem := st'.mem, normalized := false)
         && st'.mem == if QuickCheck(st, false) == Ok then NormMemory(st, Stop(st), hash) else st.mem
       else
         && st' == st.(mem := st'.mem, secs := ClearedAll(st.secs), normalized := true, sorted := true)
         && Bounded(st')
         && SameEntries(Toc(st'), BeforeSort(st))
         && (st.sorted ==> Toc(st') == BeforeSort(st))
         && (!st.sorted ==> Sorted(Names(st')))
         && FixedToc(st') == (if st.normalized then FixedToc(st) else Records(st, Toc(st), hash))
         && (st.normalized && st.sorted ==> st'.mem == st.mem)
  }
}
