/** Section layout: rounding, the final section, and the invariant that every image operation keeps. */
module XipLayout {
  import opened Arithmetic
  import opened Bytes
  import opened XipTypes

  // ---- rounding up to an alignment

  /** A legal alignment: a power of two that fits the table's 8-bit field. */
  predicate PowerOfTwo(a: nat): (legal: bool)
    ensures legal ==> 0 < a <= MAX_SECTION_ALIGNMENT
  {
    a == 1 || (a % 2 == 0 && 1 < a <= MAX_SECTION_ALIGNMENT && PowerOfTwo(a / 2))
  }

  lemma PowersOfTwo(a: nat)
    ensures PowerOfTwo(a) <==> a in {1, 2, 4, 8, 16, 32, 64, 128}
  {
    PowersUpTo(a);
    if a > 1 {
      PowersUpTo(a / 2);
    }
  }

  lemma {:induction false} PowersUpTo(a: nat)
    ensures PowerOfTwo(a) ==> a in {1, 2, 4, 8, 16, 32, 64, 128}
  {
    if a > 1 && PowerOfTwo(a) {
      PowersUpTo(a / 2);
    }
  }

  /** The source's test, `a == 0 || (a & (a - 1)) != 0` for an error, on the 8-bit alignment field. */
  lemma PowerOfTwoTest(a: bv8)
    ensures PowerOfTwo(a as nat) <==> a != 0 && a & (a - 1) == 0
  {
    PowersOfTwo(a as nat);
  }

  /** x % a. Written by recursion so that proofs about layouts stay linear; ModIsRemainder ties it to `%`. */
  function Mod(x: nat, a: nat): (r: nat)
    requires a > 0
    ensures r < a
  {
    if x < a then x else Mod(x - a, a)
  }

  lemma {:induction false} ModIsRemainder(x: nat, a: nat)
    requires a > 0
    ensures Mod(x, a) == x % a
  {
    if x >= a {
      ModIsRemainder(x - a, a);
      var q, r := (x - a) / a, (x - a) % a;
      assert x == (q + 1) * a + r by {
        assert x - a == q * a + r;
        assert (q + 1) * a == q * a + a;
      }
      DivisionUnique(x, a, q + 1, r);
    } else {
      DivisionUnique(x, a, 0, x);
    }
  }

  /** x padded up to the alignment a. */
  function PadTo(x: nat, a: nat): (r: nat)
    requires a > 0
    ensures x <= r < x + a
  {
    if Mod(x, a) == 0 then x else x + (a - Mod(x, a))
  }

  /** An image size with the final alignment re-established. */
  function FinalSize(x: nat): nat {
    PadTo(x, FINAL_ALIGNMENT)
  }

  /** PadTo gives the least multiple of the alignment that is no smaller than x. */
  lemma PadToLeast(x: nat, a: nat, y: nat)
    requires a > 0
    ensures Mod(PadTo(x, a), a) == 0
    ensures Mod(y, a) == 0 && x <= y ==> PadTo(x, a) <= y
  {
    PadToIsMultiple(x, a);
    if Mod(y, a) == 0 && x <= y < PadTo(x, a) {
      ModIsRemainder(y, a);
      ModIsRemainder(PadTo(x, a), a);
      MultiplesApart(y, PadTo(x, a), a);
    }
  }

  lemma PadToIsMultiple(x: nat, a: nat)
    requires a > 0
    ensures Mod(PadTo(x, a), a) == 0
  {
    ModIsRemainder(x, a);
    ModIsRemainder(PadTo(x, a), a);
    if x % a != 0 {
      var q := x / a;
      assert PadTo(x, a) == (q + 1) * a by {
        assert x == a * q + x % a;
        assert (q + 1) * a == a * q + a;
      }
      DivisionUnique(PadTo(x, a), a, q + 1, 0);
    }
  }

  /** An image that ends behind the header's fields has room for the padded header. */
  lemma FinalSizeHoldsHeader(x: nat)
    requires x >= HEADER_FIELDS
    ensures FinalSize(x) >= HEADER_SIZE
  {
    PadToIsMultiple(x, FINAL_ALIGNMENT);
    ModIsRemainder(FinalSize(x), FINAL_ALIGNMENT);
  }

  /** Distinct multiples of a are at least a apart. */
  lemma MultiplesApart(x: nat, y: nat, a: nat)
    requires a > 0 && x % a == 0 && y % a == 0 && x < y
    ensures x + a <= y
  {
    var p, q := x / a, y / a;
    assert x == a * p && y == a * q;
    assert (q - p) * a == y - x;
    ProductSign(q - p, a);
  }

  /** Padding an image whose size is a multiple of 8 costs at most the alignment less 8. */
  lemma PaddingBound(x: nat, a: nat)
    requires PowerOfTwo(a) && Mod(x, FINAL_ALIGNMENT) == 0
    ensures a <= 8 ==> PadTo(x, a) == x
    ensures a >= 8 ==> PadTo(x, a) <= x + a - 8
  {
    ModIsRemainder(x, a);
    ModIsRemainder(x, FINAL_ALIGNMENT);
    PowersOfTwo(a);
    if a >= 8 {
      assert a % 8 == 0 by { assert a == 8 || a == 16 || a == 32 || a == 64 || a == 128; }
      EighthsDivide(x, a);
      EighthsBelow(Mod(x, a), a, x);
    } else {
      SmallPowersDivide(x, a);
    }
  }

  lemma EighthsBelow(r: nat, a: nat, x: nat)
    requires r < a && r % 8 == 0 && a % 8 == 0 && x % 8 == 0
    ensures (x + (a - r)) % 8 == 0 && (r == 0 || x + (a - r) <= x + a - 8)
  {
  }

  /** A remainder by a multiple of 8 keeps the residue modulo 8. */
  lemma EighthsDivide(x: nat, a: nat)
    requires a > 0 && a % 8 == 0
    ensures x % a % 8 == x % 8
  {
    var b, q, r := a / 8, x / a, x % a;
    assert x == 8 * (b * q) + r by {
      assert x == a * q + r;
      assert a * q == 8 * b * q;
      assert 8 * b * q == 8 * (b * q);
    }
  }

  lemma SmallPowersDivide(x: nat, a: nat)
    requires x % 8 == 0 && a in {1, 2, 4}
    ensures x % a == 0
  {
    if a == 1 { assert x % 1 == 0; }
    else if a == 2 { assert x % 2 == 0; }
    else { assert x % 4 == 0; }
  }

  // ---- the final section

  /** Index of the non-empty section with the highest offset among the first n, or -1. Among equal
      offsets the later index wins, as in the scan of the table. */
  function FinalUpTo(secs: seq<Section>, n: nat): (f: int)
    requires n <= |secs|
    ensures -1 <= f < n
    ensures f == -1 <==> forall i :: 0 <= i < n ==> secs[i].size == 0
    ensures f >= 0 ==> secs[f].size != 0
    ensures f >= 0 ==> forall i :: 0 <= i < n && secs[i].size != 0 ==>
      secs[i].offset <= secs[f].offset && (secs[i].offset == secs[f].offset ==> i <= f)
  {
    if n == 0 then -1
    else
      var f := FinalUpTo(secs, n - 1);
      if secs[n - 1].size != 0 && secs[n - 1].offset >= (if f < 0 then 0 else secs[f].offset) then n - 1 else f
  }

  function Final(secs: seq<Section>): int {
    FinalUpTo(secs, |secs|)
  }

  function SectionEnd(s: Section): nat {
    s.offset + s.size
  }

  // ---- the layout invariant

  predicate Disjoint(a: Section, b: Section) {
    a.size == 0 || b.size == 0 || SectionEnd(a) <= b.offset || SectionEnd(b) <= a.offset
  }

  predicate Aligned(s: Section) {
    PowerOfTwo(s.alignment) && Mod(s.offset, s.alignment) == 0
  }

  predicate InImage(s: Section, imageSize: nat) {
    SectionEnd(s) <= imageSize
  }

  ghost predicate Separate(secs: seq<Section>) {
    forall i, j {:trigger Disjoint(secs[i], secs[j])} :: 0 <= i < |secs| && 0 <= j < |secs| && i != j ==>
      Disjoint(secs[i], secs[j])
  }

  /** The image and all its sections lie in memory: enough to read it. */
  ghost predicate Bounded(st: ImageState) {
    && |st.secs| == SECTIONS && st.size <= |st.mem|
    && forall i {:trigger InImage(st.secs[i], st.size)} :: 0 <= i < SECTIONS ==> InImage(st.secs[i], st.size)
  }

  /** The layout of a linked image, kept by every operation. */
  ghost predicate Layout(st: ImageState) {
    && Bounded(st)
    && HEADER_SIZE <= st.size < U32_LIMIT && Mod(st.size, FINAL_ALIGNMENT) == 0
    && st.secs[HEADER].offset == 0 && st.secs[HEADER].size >= HEADER_FIELDS
    && (forall i {:trigger Aligned(st.secs[i])} :: 0 <= i < SECTIONS ==> Aligned(st.secs[i]))
    && Separate(st.secs)
    && (st.normalized ==> forall i :: 0 <= i < SECTIONS && st.secs[i].size == 0 ==> st.secs[i].offset == 0)
  }

  /** The image ends where its highest section ends, rounded up to the final alignment. */
  ghost predicate Tight(st: ImageState) {
    Final(st.secs) >= 0 && st.size == FinalSize(SectionEnd(st.secs[Final(st.secs)]))
  }

  /** No section ends after the final one; all others end before it starts. */
  lemma FinalIsHighest(secs: seq<Section>)
    requires Separate(secs) && Final(secs) >= 0
    ensures forall i :: 0 <= i < |secs| && secs[i].size != 0 && i != Final(secs) ==>
      SectionEnd(secs[i]) <= secs[Final(secs)].offset
  {
    var f := Final(secs);
    forall i | 0 <= i < |secs| && secs[i].size != 0 && i != f
      ensures SectionEnd(secs[i]) <= secs[f].offset
    {
      assert Disjoint(secs[i], secs[f]);
    }
  }
}
