/** p9_xip_normalize: linked addresses become section offsets, and .fixed entries get hashed records. */
module XipNormalize {
  import opened Bytes
  import opened XipTypes
  import opened XipLayout
  import opened XipToc
  import opened XipFind
  import opened XipAddress

  /** The entry with its two addresses replaced by offsets; the name must lie in .strings. */
  function NormEntry(st: ImageState, e: TocEntry): (r: Result<TocEntry>)
    requires |st.secs| == SECTIONS
  {
    var id := Image2Section(st, FullAddress(st, e.id));
    if id.Failure? then Failure(id.rc)
    else if id.value.section != STRINGS then Failure(ImageError)
    else
      var data := Image2Section(st, FullAddress(st, e.data));
      if data.Failure? then Failure(data.rc)
      else Success(TocEntry(id.value.offset, data.value.offset, e.typ, data.value.section as byte, e.elements, 0))
  }

  predicate InFixed(e: TocEntry) {
    e.section as int == FIXED
  }

  /** Return code for one entry when `left` records of .fixed_toc are still free. */
  function NormRc(st: ImageState, e: TocEntry, left: nat): Rc
    requires |st.secs| == SECTIONS
  {
    var r := NormEntry(st, e);
    if r.Failure? then r.rc
    else if InFixed(r.value) && left == 0 then TocError
    else if InFixed(r.value) && r.value.data >= 0x1_0000 then ImageError
    else Ok
  }

  /** The normalized entry; an entry that cannot be normalized is left as it is. */
  function Normed(st: ImageState, e: TocEntry): TocEntry
    requires |st.secs| == SECTIONS
  {
    if NormEntry(st, e).Success? then NormEntry(st, e).value else e
  }

  function NormedAll(st: ImageState, t: seq<TocEntry>): (r: seq<TocEntry>)
    requires |st.secs| == SECTIONS
    ensures |r| == |t| && forall k :: 0 <= k < |t| ==> r[k] == Normed(st, t[k])
  {
    seq(|t|, k requires 0 <= k < |t| => Normed(st, t[k]))
  }

  /** Number of entries among the first k of the linked table t whose data lies in .fixed. */
  function FixedBefore(st: ImageState, t: seq<TocEntry>, k: nat): nat
    requires |st.secs| == SECTIONS && k <= |t|
  {
    if k == 0 then 0 else FixedBefore(st, t, k - 1) + if InFixed(Normed(st, t[k - 1])) then 1 else 0
  }

  /** The hashed record of a normalized entry. */
  function Record(st: ImageState, e: TocEntry, hash: Hash): HashedToc
    requires |st.secs| == SECTIONS
  {
    HashedToc(hash(Name(st, e)), e.data % 0x1_0000, e.typ, e.elements)
  }

  /** The records of the .fixed entries among the first k, in table order. */
  function RecordsBefore(st: ImageState, t: seq<TocEntry>, k: nat, hash: Hash): (r: seq<HashedToc>)
    requires |st.secs| == SECTIONS && k <= |t|
    ensures |r| == FixedBefore(st, t, k)
  {
    if k == 0 then []
    else
      var r := RecordsBefore(st, t, k - 1, hash);
      var n := Normed(st, t[k - 1]);
      if InFixed(n) then r + [Record(st, n, hash)] else r
  }

  /** All records of a linked table. */
  function Records(st: ImageState, t: seq<TocEntry>, hash: Hash): seq<HashedToc>
    requires |st.secs| == SECTIONS
  {
    RecordsBefore(st, t, |t|, hash)
  }

  /** What the normalization loop returns for entry k of the linked table t, with `slots` records free at its
      start and all entries before k normalized. */
  function EntryCode(st: ImageState, t: seq<TocEntry>, slots: nat, k: nat): Rc
    requires |st.secs| == SECTIONS && k < |t|
  {
    var used := FixedBefore(st, t, k);
    NormRc(st, t[k], if used <= slots then slots - used else 0)
  }

  function TocCodes(st: ImageState, t: seq<TocEntry>, slots: nat): (codes: seq<Rc>)
    requires |st.secs| == SECTIONS
    ensures |codes| == |t|
  {
    seq(|t|, k requires 0 <= k < |t| => EntryCode(st, t, slots, k))
  }

  /** Return code of the normalization loop: its first error. */
  function TocRc(st: ImageState, t: seq<TocEntry>, slots: nat): Rc
    requires |st.secs| == SECTIONS
  {
    FirstError(TocCodes(st, t, slots), 0)
  }

  predicate Collision(records: seq<HashedToc>) {
    exists i, j :: 0 <= i < j < |records| && records[i].hash == records[j].hash
  }

  /** Return code of the normalization of a linked image. */
  ghost function NormalizeRc(st: ImageState, hash: Hash): Rc
    requires Layout(st)
  {
    var t, slots := Toc(st), |FixedToc(st)|;
    if QuickCheck(st, false) != Ok then QuickCheck(st, false)
    else if st.normalized then Ok
    else if TocRc(st, t, slots) != Ok then TocRc(st, t, slots)
    else if FixedBefore(st, t, |t|) != slots then TocError
    else if Collision(Records(st, t, hash)) then HashCollision
    else Ok
  }

  /** The entry could be normalized, and its record indexes .fixed in 16 bits. */
  predicate Normalizable(st: ImageState, e: TocEntry)
    requires |st.secs| == SECTIONS
  {
    NormEntry(st, e).Success? && (InFixed(Normed(st, e)) ==> Normed(st, e).data < 0x1_0000)
  }

  lemma NormRcOk(st: ImageState, e: TocEntry, left: nat)
    requires |st.secs| == SECTIONS && NormRc(st, e, left) == Ok
    ensures Normalizable(st, e)
  {
  }

  /** When the loop runs through, every entry is normalizable. */
  lemma TocRcOk(st: ImageState, t: seq<TocEntry>, slots: nat)
    requires |st.secs| == SECTIONS && TocRc(st, t, slots) == Ok
    ensures forall i {:trigger Normalizable(st, t[i])} :: 0 <= i < |t| ==> Normalizable(st, t[i])
  {
    var codes := TocCodes(st, t, slots);
    forall i {:trigger Normalizable(st, t[i])} | 0 <= i < |t| ensures Normalizable(st, t[i]) {
      var used := FixedBefore(st, t, i);
      assert codes[i] == EntryCode(st, t, slots, i);
      NormRcOk(st, t[i], if used <= slots then slots - used else 0);
    }
  }

  // ---- the image after a successful normalization

  /** Empty sections have their offset cleared. */
  function Cleared(s: Section): Section {
    if s.size == 0 then s.(offset := 0) else s
  }

  function ClearedAll(secs: seq<Section>): (r: seq<Section>)
    ensures |r| == |secs| && forall i :: 0 <= i < |secs| ==> r[i] == Cleared(secs[i])
  {
    seq(|secs|, i requires 0 <= i < |secs| => Cleared(secs[i]))
  }

  /** Only the two tables have been written: every other section has its bytes. */
  ghost predicate OthersKept(st: ImageState, m: seq<byte>)
    requires Layout(st)
  {
    |m| == |st.mem| && forall i {:trigger InImage(st.secs[i], st.size)} :: 0 <= i < SECTIONS ==>
      InImage(st.secs[i], st.size) && (i != TOC && i != FIXED_TOC ==>
        m[st.secs[i].offset..SectionEnd(st.secs[i])] == st.mem[st.secs[i].offset..SectionEnd(st.secs[i])])
  }

  ghost predicate SameEntries(a: seq<TocEntry>, b: seq<TocEntry>) {
    multiset(a) == multiset(b)
  }

  /** The table the sort starts from. */
  ghost function BeforeSort(st: ImageState): seq<TocEntry>
    requires Layout(st)
  {
    if st.normalized then Toc(st) else NormedAll(st, Toc(st))
  }

  /** The names that the sort arranges, in the order it finds them. */
  ghost function SortKeys(st: ImageState): (ks: seq<seq<byte>>)
    requires Layout(st)
    ensures |ks| == |BeforeSort(st)| && forall k :: 0 <= k < |ks| ==> ks[k] == Name(st, BeforeSort(st)[k])
  {
    seq(|BeforeSort(st)|, k requires 0 <= k < |BeforeSort(st)| => Name(st, BeforeSort(st)[k]))
  }

  /** Clearing the offsets of empty sections keeps the layout. */
  lemma ClearedLayout(st: ImageState, r: ImageState)
    requires Layout(st) && |r.mem| == |st.mem|
      && r == st.(mem := r.mem, secs := ClearedAll(st.secs), normalized := r.normalized, sorted := r.sorted)
    ensures Layout(r)
  {
    forall i | 0 <= i < SECTIONS ensures InImage(r.secs[i], r.size) && Aligned(r.secs[i]) {
      assert InImage(st.secs[i], st.size) && Aligned(st.secs[i]);
    }
    forall i, j | 0 <= i < SECTIONS && 0 <= j < SECTIONS && i != j ensures Disjoint(r.secs[i], r.secs[j]) {
      assert Disjoint(st.secs[i], st.secs[j]);
    }
  }
}
