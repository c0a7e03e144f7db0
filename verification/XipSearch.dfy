/** Searching the TOC: what linear and binary search return, and self-lookup validation. */
module XipSearch {
  import opened Bytes
  import opened CStrings

  /** Index of the first name equal to the key, from `from` on, or -1. */
  function LinearIndex(names: seq<seq<byte>>, key: seq<byte>, from: nat): (r: int)
    requires from <= |names|
    ensures r == -1 <==> forall k :: from <= k < |names| ==> names[k] != key
    ensures r != -1 ==> from <= r < |names| && names[r] == key && forall k :: from <= k < r ==> names[k] != key
    decreases |names| - from
  {
    if from == |names| then -1 else if names[from] == key then from else LinearIndex(names, key, from + 1)
  }

  /** Where the binary search of names[left..right] for the key ends, or -1; the names need not be sorted. */
  function BinaryIndex(names: seq<seq<byte>>, key: seq<byte>, left: int, right: int): (r: int)
    requires 0 <= left && right < |names|
    ensures r == -1 || (left <= r <= right && names[r] == key)
    decreases right - left
  {
    if left > right then -1
    else
      var next := (left + right) / 2;
      var sort := StrCmp(key, names[next]);
      if sort == 0 then next
      else if sort < 0 then BinaryIndex(names, key, left, next - 1)
      else BinaryIndex(names, key, next + 1, right)
  }

  /** names[lo..hi], both ends included, are strictly increasing. */
  ghost predicate Increasing(names: seq<seq<byte>>, lo: int, hi: int)
    requires 0 <= lo && hi < |names|
  {
    forall i, j :: lo <= i < j <= hi ==> Less(names[i], names[j])
  }

  ghost predicate StrictlyIncreasing(names: seq<seq<byte>>) {
    Increasing(names, 0, |names| - 1)
  }

  lemma StrictlyIncreasingIff(names: seq<seq<byte>>)
    ensures StrictlyIncreasing(names) <==> forall i, j :: 0 <= i < j < |names| ==> Before(names[i], names[j])
  {
    forall i, j | 0 <= i < j < |names| ensures Less(names[i], names[j]) <==> Before(names[i], names[j]) {
      LessIff(names[i], names[j]);
    }
  }

  ghost predicate Distinct(names: seq<seq<byte>>) {
    forall i, j :: 0 <= i < j < |names| ==> names[i] != names[j]
  }

  /** The search of names[lo..hi] for entry k's name ends at entry k. */
  ghost predicate FindsAt(names: seq<seq<byte>>, k: int, lo: int, hi: int)
    requires 0 <= lo <= k <= hi < |names|
  {
    BinaryIndex(names, names[k], lo, hi) == k
  }

  /** Every entry of names[lo..hi] finds itself. */
  ghost predicate SelfLookup(names: seq<seq<byte>>, lo: int, hi: int)
    requires 0 <= lo && hi < |names|
  {
    forall k {:trigger FindsAt(names, k, lo, hi)} :: lo <= k <= hi ==> FindsAt(names, k, lo, hi)
  }

  /** One level of the search tree: entries that find themselves lie on their side of the root and find
      themselves in their half. */
  lemma SearchTreeNode(names: seq<seq<byte>>, lo: int, hi: int, k: int)
    requires 0 <= lo <= k <= hi < |names| && FindsAt(names, k, lo, hi)
    ensures var next := (lo + hi) / 2;
      && (k < next ==> Less(names[k], names[next]) && FindsAt(names, k, lo, next - 1))
      && (k > next ==> Less(names[next], names[k]) && FindsAt(names, k, next + 1, hi))
  {
    StrCmpAntisymmetric(names[k], names[(lo + hi) / 2]);
  }

  /** Both halves and the root between them give the whole. */
  lemma HalvesIncreasing(names: seq<seq<byte>>, lo: int, next: int, hi: int)
    requires 0 <= lo <= next <= hi < |names| && Increasing(names, lo, next - 1) && Increasing(names, next + 1, hi)
    requires forall k :: lo <= k < next ==> Less(names[k], names[next])
    requires forall k :: next < k <= hi ==> Less(names[next], names[k])
    ensures Increasing(names, lo, hi)
  {
    forall i, j | lo <= i < j <= hi ensures Less(names[i], names[j]) {
      if i < next < j {
        LessEqTransitive(names[i], names[next], names[j]);
      }
    }
  }

  /** All entries of the left half are below the root and find themselves there. */
  lemma LeftHalf(names: seq<seq<byte>>, lo: int, hi: int, next: int)
    requires 0 <= lo <= hi < |names| && next == (lo + hi) / 2 && SelfLookup(names, lo, hi)
    ensures SelfLookup(names, lo, next - 1)
    ensures forall k :: lo <= k < next ==> Less(names[k], names[next])
  {
    forall k {:trigger FindsAt(names, k, lo, next - 1)} | lo <= k < next ensures FindsAt(names, k, lo, next - 1) {
      assert FindsAt(names, k, lo, hi);
      SearchTreeNode(names, lo, hi, k);
    }
    forall k | lo <= k < next ensures Less(names[k], names[next]) {
      assert FindsAt(names, k, lo, hi);
      SearchTreeNode(names, lo, hi, k);
    }
  }

  /** All entries of the right half are above it and find themselves there. */
  lemma RightHalf(names: seq<seq<byte>>, lo: int, hi: int, next: int)
    requires 0 <= lo <= hi < |names| && next == (lo + hi) / 2 && SelfLookup(names, lo, hi)
    ensures SelfLookup(names, next + 1, hi)
    ensures forall k :: next < k <= hi ==> Less(names[next], names[k])
  {
    forall k {:trigger FindsAt(names, k, next + 1, hi)} | next < k <= hi ensures FindsAt(names, k, next + 1, hi) {
      assert FindsAt(names, k, lo, hi);
      SearchTreeNode(names, lo, hi, k);
    }
    forall k | next < k <= hi ensures Less(names[next], names[k]) {
      assert FindsAt(names, k, lo, hi);
      SearchTreeNode(names, lo, hi, k);
    }
  }

  /** If every entry finds itself, the entries are strictly increasing. */
  lemma {:induction false} SelfLookupImpliesSorted(names: seq<seq<byte>>, lo: int, hi: int)
    requires 0 <= lo && hi < |names| && SelfLookup(names, lo, hi)
    ensures Increasing(names, lo, hi)
    decreases hi - lo
  {
    if lo <= hi {
      var next := (lo + hi) / 2;
      LeftHalf(names, lo, hi, next);
      RightHalf(names, lo, hi, next);
      SelfLookupImpliesSorted(names, lo, next - 1);
      SelfLookupImpliesSorted(names, next + 1, hi);
      HalvesIncreasing(names, lo, next, hi);
    }
  }

  /** On strictly increasing names the binary search finds the key if and only if it is there. */
  lemma {:induction false} BinaryFinds(names: seq<seq<byte>>, key: seq<byte>, lo: int, hi: int)
    requires 0 <= lo && hi < |names| && Increasing(names, lo, hi)
    ensures BinaryIndex(names, key, lo, hi) == -1 ==> forall k :: lo <= k <= hi ==> names[k] != key
    decreases hi - lo
  {
    if lo <= hi {
      var next := (lo + hi) / 2;
      var sort := StrCmp(key, names[next]);
      StrCmpAntisymmetric(key, names[next]);
      if sort < 0 {
        BinaryFinds(names, key, lo, next - 1);
      } else if sort > 0 {
        BinaryFinds(names, key, next + 1, hi);
      }
      forall k | lo <= k <= hi && sort != 0 && BinaryIndex(names, key, lo, hi) == -1 ensures names[k] != key {
        if k != next {
          StrCmpAntisymmetric(names[k], names[next]);
        }
      }
    }
  }

  lemma IncreasingIsDistinct(names: seq<seq<byte>>)
    requires StrictlyIncreasing(names)
    ensures Distinct(names)
  {
    forall i, j | 0 <= i < j < |names| ensures names[i] != names[j] {
      assert Less(names[i], names[j]);
    }
  }

  /** Binary and linear search agree on every key of a strictly increasing table. */
  lemma SearchesAgree(names: seq<seq<byte>>, key: seq<byte>)
    requires StrictlyIncreasing(names)
    ensures BinaryIndex(names, key, 0, |names| - 1) == LinearIndex(names, key, 0)
  {
    BinaryFinds(names, key, 0, |names| - 1);
    IncreasingIsDistinct(names);
  }

  /** Self-lookup by binary search succeeds for all entries exactly when the table is strictly increasing. */
  lemma SelfLookupIffSorted(names: seq<seq<byte>>)
    ensures SelfLookup(names, 0, |names| - 1) <==> StrictlyIncreasing(names)
  {
    if SelfLookup(names, 0, |names| - 1) {
      SelfLookupImpliesSorted(names, 0, |names| - 1);
    }
    if StrictlyIncreasing(names) {
      IncreasingIsDistinct(names);
      var last := |names| - 1;
      forall k {:trigger FindsAt(names, k, 0, last)} | 0 <= k <= last ensures FindsAt(names, k, 0, last) {
        SearchesAgree(names, names[k]);
      }
    }
  }

  /** Every entry is the first one with its name. */
  ghost predicate SelfLookupLinear(names: seq<seq<byte>>) {
    forall k :: 0 <= k < |names| ==> LinearIndex(names, names[k], 0) == k
  }

  /** Self-lookup by linear search succeeds for all entries exactly when no name occurs twice. */
  lemma LinearSelfLookupIffDistinct(names: seq<seq<byte>>)
    ensures SelfLookupLinear(names) <==> Distinct(names)
  {
    if SelfLookupLinear(names) {
      forall i, j | 0 <= i < j < |names| ensures names[i] != names[j] {
        assert LinearIndex(names, names[j], 0) == j;
      }
    }
  }
}
