/** NUL-terminated strings held in memory, and strcmp's order on them. */
module CStrings {
  import opened Bytes

  /** The characters from position `at` up to the first NUL. */
  function CString(m: seq<byte>, at: nat): (s: seq<byte>)
    ensures 0 !in s
    decreases |m| - at
  {
    if at >= |m| || m[at] == 0 then [] else [m[at]] + CString(m, at + 1)
  }

  /** The string in memory at position `at`. */
  method ReadCString(mem: array<byte>, at: nat) returns (s: seq<byte>)
    ensures s == CString(mem[..], at)
  {
    s := [];
    var i := at;
    while i < mem.Length && mem[i] != 0
      invariant s + CString(mem[..], i) == CString(mem[..], at)
      decreases mem.Length - i
    {
      s := s + [mem[i]];
      i := i + 1;
    }
  }

  /** The sign of strcmp: lexicographic order on unsigned bytes. */
  function StrCmp(a: seq<byte>, b: seq<byte>): (c: int)
    ensures c == 0 <==> a == b
    ensures -1 <= c <= 1
  {
    if a == [] then (if b == [] then 0 else -1)
    else if b == [] then 1
    else if a[0] < b[0] then -1
    else if a[0] > b[0] then 1
    else
      var c := StrCmp(a[1..], b[1..]);
      assert a == [a[0]] + a[1..] && b == [b[0]] + b[1..];
      c
  }

  predicate Less(a: seq<byte>, b: seq<byte>) {
    StrCmp(a, b) < 0
  }

  predicate LessEq(a: seq<byte>, b: seq<byte>) {
    StrCmp(a, b) <= 0
  }

  lemma {:induction false} StrCmpAntisymmetric(a: seq<byte>, b: seq<byte>)
    ensures StrCmp(a, b) == -StrCmp(b, a)
  {
    if a != [] && b != [] && a[0] == b[0] {
      StrCmpAntisymmetric(a[1..], b[1..]);
    }
  }

  lemma {:induction false} LessEqTransitive(a: seq<byte>, b: seq<byte>, c: seq<byte>)
    requires LessEq(a, b) && LessEq(b, c)
    ensures LessEq(a, c)
    ensures Less(a, b) || Less(b, c) ==> Less(a, c)
  {
    if a != [] && b != [] && c != [] && a[0] == b[0] && b[0] == c[0] {
      LessEqTransitive(a[1..], b[1..], c[1..]);
    }
  }

  // ---- what the order is

  /** a comes before b: it is a proper prefix of b, or at the first place where they part it has the lower byte. */
  ghost predicate Before(a: seq<byte>, b: seq<byte>) {
    a < b || exists k: nat :: PartsAt(a, b, k)
  }

  predicate PartsAt(a: seq<byte>, b: seq<byte>, k: nat) {
    k < |a| && k < |b| && a[..k] == b[..k] && (a[k] as int) < (b[k] as int)
  }

  /** strcmp's order is the lexicographic order of unsigned bytes. */
  lemma {:induction false} LessIff(a: seq<byte>, b: seq<byte>)
    ensures Less(a, b) <==> Before(a, b)
  {
    if a != [] && b != [] {
      if a[0] == b[0] {
        LessIff(a[1..], b[1..]);
        BeforeTail(a, b);
      } else {
        PartsAtFirst(a, b);
      }
    }
  }

  lemma PartsAtFirst(a: seq<byte>, b: seq<byte>)
    requires a != [] && b != [] && a[0] != b[0]
    ensures Before(a, b) <==> a[0] < b[0]
  {
    if a[0] < b[0] {
      assert PartsAt(a, b, 0);
    }
    forall k: nat | PartsAt(a, b, k) ensures k == 0 {
      SamePrefixSameFirst(a, b, k);
    }
    SamePrefixSameFirst(a, b, |a|);
  }

  lemma SamePrefixSameFirst(a: seq<byte>, b: seq<byte>, k: nat)
    requires a != [] && b != []
    ensures 0 < k <= |a| && k <= |b| && a[..k] == b[..k] ==> a[0] == b[0]
  {
    if 0 < k <= |a| && k <= |b| {
      assert a[..k][0] == a[0] && b[..k][0] == b[0];
    }
  }

  /** Behind equal first bytes the tails decide. */
  lemma BeforeTail(a: seq<byte>, b: seq<byte>)
    requires a != [] && b != [] && a[0] == b[0]
    ensures Before(a, b) <==> Before(a[1..], b[1..])
  {
    assert a == [a[0]] + a[1..] && b == [b[0]] + b[1..];
    assert a < b <==> a[1..] < b[1..];
    forall k: nat | PartsAt(a, b, k) ensures k > 0 && PartsAt(a[1..], b[1..], k - 1) {
      assert a[1..][..k - 1] == a[..k][1..] && b[1..][..k - 1] == b[..k][1..];
    }
    forall k: nat | PartsAt(a[1..], b[1..], k) ensures PartsAt(a, b, k + 1) {
      assert a[..k + 1] == [a[0]] + a[1..][..k] && b[..k + 1] == [b[0]] + b[1..][..k];
    }
  }

  lemma LessEqIff(a: seq<byte>, b: seq<byte>)
    ensures LessEq(a, b) <==> a == b || Before(a, b)
  {
    LessIff(a, b);
  }

  /** Words stored most significant byte first are ordered like their bytes. */
  lemma BigEndianOrder(v: u32, w: u32)
    ensures v < w <==> Before(U32Bytes(v), U32Bytes(w))
  {
    LessIff(U32Bytes(v), U32Bytes(w));
    WordOrder(U32Bytes(v), U32Bytes(w));
  }

  lemma WordOrder(a: seq<byte>, b: seq<byte>)
    requires |a| == 4 && |b| == 4
    ensures U32At(a, 0) < U32At(b, 0) <==> Less(a, b)
  {
    LessAt(a, b);
    LessAt(a[1..], b[1..]);
    LessAt(a[2..], b[2..]);
    LessAt(a[3..], b[3..]);
    assert a[1..][1..] == a[2..] && b[1..][1..] == b[2..];
    assert a[2..][1..] == a[3..] && b[2..][1..] == b[3..];
  }

  lemma LessAt(a: seq<byte>, b: seq<byte>)
    requires a != [] && b != []
    ensures Less(a, b) <==> a[0] < b[0] || (a[0] == b[0] && Less(a[1..], b[1..]))
  {
  }

  lemma BigEndianOrder16(v: u16, w: u16)
    ensures v < w <==> Before(U16Bytes(v), U16Bytes(w))
  {
    var a, b := U16Bytes(v), U16Bytes(w);
    LessIff(a, b);
    LessAt(a, b);
    LessAt(a[1..], b[1..]);
  }

  /** A string in memory ends at the first NUL from its place on, or where memory does. */
  lemma {:induction false} CStringEnds(m: seq<byte>, at: nat, end: nat)
    requires at <= end <= |m| && (end == |m| || m[end] == 0) && forall p :: at <= p < end ==> m[p] != 0
    ensures CString(m, at) == m[at..end]
    decreases end - at
  {
    if at < end {
      CStringEnds(m, at + 1, end);
    }
  }

  /** A string that ends before `hi` reads the same from any memory that agrees with m on [lo, hi),
      wherever that stretch has been moved. */
  lemma {:induction false} CStringMoves(m: seq<byte>, lo: nat, hi: nat, m': seq<byte>, lo': nat, at: nat)
    requires lo <= hi <= |m| && lo' + (hi - lo) <= |m'|
    requires m[lo..hi] == m'[lo'..lo' + (hi - lo)]
    requires lo + at < hi && m[hi - 1] == 0
    ensures CString(m, lo + at) == CString(m', lo' + at)
    decreases hi - lo - at
  {
    SliceIndex(m, lo, hi, at);
    SliceIndex(m', lo', lo' + (hi - lo), at);
    if m[lo + at] != 0 {
      CStringMoves(m, lo, hi, m', lo', at + 1);
    }
  }
}
