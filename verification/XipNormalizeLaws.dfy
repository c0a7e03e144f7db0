/** Normalization preserves meaning, keeps the layout, and does nothing the second time. */
module XipNormalizeLaws {
  import opened Bytes
  import opened CStrings
  import opened XipTypes
  import opened XipLayout
  import opened XipToc
  import opened XipFind
  import opened XipAddress
  import opened XipNormalize
  import opened XipNormalizeSteps

  /** What a TOC entry says: a name, a full image address, a type and a number of elements. */
  datatype Meaning = Meaning(name: seq<byte>, address: nat, typ: byte, elements: byte)

  /** The meaning of an entry of a linked image, whose fields are 32-bit addresses. */
  function Linked(st: ImageState, e: TocEntry): Meaning
    requires FullAddress(st, e.id) >= st.link
  {
    Meaning(CString(st.mem, (FullAddress(st, e.id) - st.link) % U32_LIMIT), FullAddress(st, e.data), e.typ, e.elements)
  }

  /** The meaning of an entry of a normalized image, as p9_xip_map_toc decodes it. */
  function Decoded(st: ImageState, e: TocEntry): (m: Option<Meaning>)
    requires |st.secs| == SECTIONS
  {
    var r := Decode(st, e, 0);
    if r.Success? && r.value.id.Some? then
      Some(Meaning(r.value.id.value, r.value.address, r.value.typ, r.value.elements))
    else None
  }

  /** Two images that differ in the tables, flags and the offsets of empty sections only. */
  ghost predicate SameBut(st: ImageState, st': ImageState) {
    && Layout(st) && OthersKept(st, st'.mem)
    && st' == st.(mem := st'.mem, secs := ClearedAll(st.secs), normalized := true, sorted := st'.sorted)
  }

  lemma NameInStrings(st: ImageState, st': ImageState, e: TocEntry)
    requires SameBut(st, st') && StringsEnd(st) && e.id < st.secs[STRINGS].size
    ensures Name(st', e) == Name(st, e)
  {
    var s := st.secs[STRINGS];
    assert InImage(s, st.size);
    CStringMoves(st.mem, s.offset, SectionEnd(s), st'.mem, s.offset, e.id);
  }

  lemma StringsStillEnd(st: ImageState, st': ImageState)
    requires SameBut(st, st') && StringsEnd(st) && Layout(st')
    ensures StringsEnd(st') && st'.secs[STRINGS] == st.secs[STRINGS]
  {
    var s := st.secs[STRINGS];
    assert InImage(s, st.size);
    assert ClearedAll(st.secs)[STRINGS] == Cleared(s);
    SliceIndex(st.mem, s.offset, SectionEnd(s), s.size - 1);
    SliceIndex(st'.mem, s.offset, SectionEnd(s), s.size - 1);
  }

  /** A normalized entry's name lies in .strings at the place the linked address pointed to, and its data in
      the section the linked address pointed into. */
  lemma NormedPlaces(st: ImageState, e: TocEntry)
    requires Layout(st) && NormEntry(st, e).Success?
    ensures var n := Normed(st, e);
      && FullAddress(st, e.id) >= st.link && n.id < st.secs[STRINGS].size
      && (FullAddress(st, e.id) - st.link) % U32_LIMIT == st.secs[STRINGS].offset + n.id
      && n.section as int < SECTIONS && st.secs[n.section as int].size != 0
      && FullAddress(st, e.data) == st.link + st.secs[n.section as int].offset + n.data
  {
    AddressInImage(st, FullAddress(st, e.data));
    AddressInImage(st, FullAddress(st, e.id));
  }

  lemma AddressInImage(st: ImageState, address: nat)
    requires Layout(st)
    ensures Image2Section(st, address).Success? ==>
      var place := Image2Section(st, address).value;
      && place.section < SECTIONS && place.offset < st.secs[place.section].size
      && address == st.link + st.secs[place.section].offset + place.offset
      && (address - st.link) % U32_LIMIT == st.secs[place.section].offset + place.offset
  {
  }

  /** One entry decodes after normalization to what it denoted when linked. */
  lemma EntryMeaningKept(st: ImageState, st': ImageState, e: TocEntry)
    requires SameBut(st, st') && StringsEnd(st) && NormEntry(st, e).Success?
    ensures FullAddress(st, e.id) >= st.link
    ensures Decoded(st', Normed(st, e)) == Some(Linked(st, e))
  {
    NormedPlaces(st, e);
    NameInStrings(st, st', Normed(st, e));
    assert ClearedAll(st.secs)[STRINGS] == Cleared(st.secs[STRINGS]);
  }

  function DecodedAll(st: ImageState, t: seq<TocEntry>): (r: seq<Option<Meaning>>)
    requires |st.secs| == SECTIONS
    ensures |r| == |t| && forall k :: 0 <= k < |t| ==> r[k] == Decoded(st, t[k])
  {
    seq(|t|, k requires 0 <= k < |t| => Decoded(st, t[k]))
  }

  ghost function LinkedAll(st: ImageState, t: seq<TocEntry>): (r: seq<Option<Meaning>>)
    requires forall k :: 0 <= k < |t| ==> FullAddress(st, t[k].id) >= st.link
    ensures |r| == |t| && forall k :: 0 <= k < |t| ==> r[k] == Some(Linked(st, t[k]))
  {
    seq(|t|, k requires 0 <= k < |t| => Some(Linked(st, t[k])))
  }

  /** The sequence without its element k. */
  function Without<T>(s: seq<T>, k: nat): (r: seq<T>)
    requires k < |s|
    ensures |r| == |s| - 1
  {
    s[..k] + s[k + 1..]
  }

  lemma TakenOut<T>(s: seq<T>, k: nat)
    requires k < |s|
    ensures multiset(s) == multiset(Without(s, k)) + multiset{s[k]}
    ensures multiset(Without(s, k)) == multiset(s) - multiset{s[k]}
  {
    assert s == s[..k] + [s[k]] + s[k + 1..];
  }

  lemma DecodedWithout(st: ImageState, t: seq<TocEntry>, k: nat)
    requires |st.secs| == SECTIONS && k < |t|
    ensures DecodedAll(st, Without(t, k)) == Without(DecodedAll(st, t), k)
  {
  }

  lemma SameMembers(a: seq<TocEntry>, b: seq<TocEntry>, e: TocEntry)
    requires SameEntries(a, b)
    ensures e in a <==> e in b
  {
    assert e in multiset(a) <==> e in multiset(b);
  }

  /** Decoding is entry by entry, so rearranging the table rearranges what it decodes to. */
  lemma {:induction false} DecodedRearranged(st: ImageState, a: seq<TocEntry>, b: seq<TocEntry>)
    requires |st.secs| == SECTIONS && SameEntries(a, b)
    ensures multiset(DecodedAll(st, a)) == multiset(DecodedAll(st, b))
    decreases |a|
  {
    if a == [] {
      assert |multiset(b)| == 0;
    } else {
      assert a[0] in multiset(b);
      var k :| 0 <= k < |b| && b[k] == a[0];
      TakenOut(a, 0);
      TakenOut(b, k);
      DecodedRearranged(st, Without(a, 0), Without(b, k));
      DecodedWithout(st, a, 0);
      DecodedWithout(st, b, k);
      TakenOut(DecodedAll(st, a), 0);
      TakenOut(DecodedAll(st, b), k);
    }
  }

  /** Normalization preserves meaning: after it, decoding all entries gives, in some order, exactly the
      names, addresses, types and element counts that the linked entries denoted. */
  lemma NormalizationPreservesMeaning(st: ImageState, st': ImageState, hash: Hash)
    requires Layout(st) && StringsEnd(st) && !st.normalized && NormalizePost(st, st', Ok, hash)
    ensures forall k :: 0 <= k < |Toc(st)| ==> FullAddress(st, Toc(st)[k].id) >= st.link
    ensures multiset(DecodedAll(st', Toc(st'))) == multiset(LinkedAll(st, Toc(st)))
  {
    var t := Toc(st);
    TocRcOk(st, t, |FixedToc(st)|);
    forall k | 0 <= k < |t|
      ensures FullAddress(st, t[k].id) >= st.link && Decoded(st', Normed(st, t[k])) == Some(Linked(st, t[k]))
    {
      assert Normalizable(st, t[k]);
      EntryMeaningKept(st, st', t[k]);
    }
    DecodedRearranged(st', Toc(st'), NormedAll(st, t));
    assert DecodedAll(st', NormedAll(st, t)) == LinkedAll(st, t);
  }

  /** A second normalization changes nothing. */
  lemma NormalizeTwice(st: ImageState, st': ImageState, st'': ImageState, rc: Rc, hash: Hash)
    requires Layout(st) && NormalizePost(st, st', Ok, hash)
    requires Layout(st') && NormalizePost(st', st'', rc, hash)
    ensures rc == Ok && st'' == st'
  {
    assert ClearedAll(ClearedAll(st.secs)) == ClearedAll(st.secs);
  }

  // ---- what every normalization keeps

  /** Outside the two tables no section moves or changes. */
  lemma OtherBodyUnchanged(st: ImageState, st': ImageState, i: nat)
    requires Layout(st) && OthersKept(st, st'.mem) && (st'.secs == st.secs || st'.secs == ClearedAll(st.secs))
    requires i < SECTIONS && i != TOC && i != FIXED_TOC && st.secs[i].size != 0
    ensures st'.secs[i] == st.secs[i] && SectionEnd(st.secs[i]) <= |st.mem| == |st'.mem|
    ensures Body(st', i) == Body(st, i)
  {
    assert InImage(st.secs[i], st.size);
  }

  /** What a successful normalization leaves of the table of sections and the header: offsets of empty sections are
      cleared and the flags set. */
  lemma NormalizedTable(st: ImageState, st': ImageState, hash: Hash, i: nat)
    requires Layout(st) && NormalizePost(st, st', Ok, hash) && i < SECTIONS
    ensures st'.normalized && st'.sorted && |st'.secs| == SECTIONS
    ensures st'.secs[i] == Section(if st.secs[i].size == 0 then 0 else st.secs[i].offset, st.secs[i].size,
                                   st.secs[i].alignment, st.secs[i].ddSupport)
    ensures st' == st.(mem := st'.mem, secs := st'.secs, normalized := true, sorted := true)
  {
  }

  /** The layout invariant survives normalization, whether it succeeds or not. */
  lemma NormalizeKeepsLayout(st: ImageState, st': ImageState, rc: Rc, hash: Hash)
    requires Layout(st) && NormalizePost(st, st', rc, hash)
    ensures Layout(st') && (Tight(st) ==> Tight(st'))
  {
    if rc == Ok {
      ClearedLayout(st, st');
      ClearedFinal(st.secs, |st.secs|);
    } else {
      FlagsLayout(st, st');
    }
  }

  lemma FlagsLayout(st: ImageState, st': ImageState)
    requires Layout(st) && |st'.mem| == |st.mem| && st' == st.(mem := st'.mem, normalized := false)
    ensures Layout(st') && (Tight(st) ==> Tight(st'))
  {
    assert forall i :: 0 <= i < SECTIONS && Aligned(st.secs[i]) ==> Aligned(st'.secs[i]);
  }

  lemma {:induction false} ClearedFinal(secs: seq<Section>, n: nat)
    requires n <= |secs|
    ensures FinalUpTo(ClearedAll(secs), n) == FinalUpTo(secs, n)
  {
    if n > 0 {
      ClearedFinal(secs, n - 1);
    }
  }
}
