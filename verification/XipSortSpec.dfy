/** The reasoning behind xipQuickSort, on the sequence of keys: pending ranges and what is already in order. */
module XipSortSpec {
  import opened Bytes
  import opened CStrings

  type Keys = seq<seq<byte>>

  /** A range of table entries, both ends included. */
  datatype Range = Range(left: int, right: int) {
    predicate Has(x: int) {
      left <= x <= right
    }

    function Size(): int {
      right - left + 1
    }
  }

  ghost predicate Sorted(ks: Keys) {
    forall x, y :: 0 <= x < y < |ks| ==> LessEq(ks[x], ks[y])
  }

  /** A table is sorted when of any two keys the one that stands first is the same or comes before the other. */
  lemma SortedIff(ks: Keys)
    ensures Sorted(ks) <==> forall x, y :: 0 <= x < y < |ks| ==> ks[x] == ks[y] || Before(ks[x], ks[y])
  {
    forall x, y | 0 <= x < y < |ks| ensures LessEq(ks[x], ks[y]) <==> ks[x] == ks[y] || Before(ks[x], ks[y]) {
      LessEqIff(ks[x], ks[y]);
    }
  }

  /** Both entries lie in one range that is still to be sorted. */
  ghost predicate Together(pending: seq<Range>, x: int, y: int) {
    exists k :: 0 <= k < |pending| && pending[k].Has(x) && pending[k].Has(y)
  }

  /** Entries that are not in one pending range are in order. */
  ghost predicate OrderedApart(ks: Keys, pending: seq<Range>) {
    forall x, y :: 0 <= x < y < |ks| ==> Together(pending, x, y) || LessEq(ks[x], ks[y])
  }

  predicate Apart(a: Range, b: Range) {
    a.right < b.left || b.right < a.left
  }

  /** Pending ranges lie in the table and do not meet. */
  ghost predicate PendingOk(n: int, pending: seq<Range>) {
    && (forall k :: 0 <= k < |pending| ==> 0 <= pending[k].left <= pending[k].right < n)
    && (forall a, b :: 0 <= a < b < |pending| ==> Apart(pending[a], pending[b]))
  }

  ghost predicate AtLeastTwoEach(pending: seq<Range>) {
    forall k :: 0 <= k < |pending| ==> pending[k].left < pending[k].right
  }

  /** Entries in all pending ranges together. */
  function Total(pending: seq<Range>): int {
    if pending == [] then 0 else Total(pending[..|pending| - 1]) + pending[|pending| - 1].Size()
  }

  lemma {:induction false} TwoSlotsPerRange(n: int, pending: seq<Range>)
    requires PendingOk(n, pending)
    ensures |pending| <= Total(pending)
    ensures AtLeastTwoEach(pending) ==> 2 * |pending| <= Total(pending)
  {
    if pending != [] {
      TwoSlotsPerRange(n, pending[..|pending| - 1]);
    }
  }

  lemma TotalPush(pending: seq<Range>, q: Range)
    ensures Total(pending + [q]) == Total(pending) + q.Size()
  {
    assert (pending + [q])[..|pending|] == pending;
  }

  /** Each entry of the range is in order with every entry outside it. */
  ghost predicate Fenced(ks: Keys, q: Range) {
    && 0 <= q.left <= q.right < |ks|
    && (forall x, y :: 0 <= x < q.left <= y <= q.right ==> LessEq(ks[x], ks[y]))
    && (forall x, y :: q.left <= x <= q.right < y < |ks| ==> LessEq(ks[x], ks[y]))
  }

  /** The result of one partitioning pass: up to i no key is above the pivot, from j on none is below. */
  ghost predicate Split(ks: Keys, q: Range, i: int, j: int, pivot: seq<byte>) {
    && 0 <= q.left <= q.right < |ks| && q.left < i <= q.right + 1 && q.left - 1 <= j < q.right && j < i
    && (forall x :: q.left <= x < i ==> LessEq(ks[x], pivot))
    && (forall y :: j < y <= q.right ==> LessEq(pivot, ks[y]))
  }

  ghost predicate SameOutside(ks: Keys, ks': Keys, q: Range) {
    |ks'| == |ks| && forall x :: 0 <= x < |ks| && !q.Has(x) ==> ks'[x] == ks[x]
  }

  /** A popped range is fenced, because the ranges still pending do not meet it. */
  lemma PoppedIsFenced(ks: Keys, rest: seq<Range>, q: Range)
    requires OrderedApart(ks, rest + [q]) && PendingOk(|ks|, rest + [q])
    ensures Fenced(ks, q)
  {
    assert (rest + [q])[|rest|] == q;
    forall x, y | 0 <= x < y < |ks| && q.Has(x) != q.Has(y) ensures LessEq(ks[x], ks[y]) {
      NotTogether(|ks|, rest, q, x, y);
    }
  }

  lemma NotTogether(n: int, rest: seq<Range>, q: Range, x: int, y: int)
    requires PendingOk(n, rest + [q]) && q.Has(x) != q.Has(y)
    ensures !Together(rest + [q], x, y)
  {
    var all := rest + [q];
    forall k | 0 <= k < |all| ensures !(all[k].Has(x) && all[k].Has(y)) {
      assert k < |rest| ==> Apart(all[k], all[|rest|]);
    }
  }

  /** The ranges pushed after a pass: the halves with at least two entries, left one first. */
  function Pushed(q: Range, i: int, j: int): seq<Range> {
    (if q.left < j then [Range(q.left, j)] else []) + (if i < q.right then [Range(i, q.right)] else [])
  }

  /** After a pass over the popped range, entries not in one pending range are in order again. */
  lemma PassOrders(ks: Keys, ks': Keys, rest: seq<Range>, q: Range, i: int, j: int, pivot: seq<byte>)
    requires OrderedApart(ks, rest + [q]) && SameOutside(ks, ks', q) && Fenced(ks', q) && Split(ks', q, i, j, pivot)
    ensures OrderedApart(ks', rest + Pushed(q, i, j))
  {
    forall x, y | 0 <= x < y < |ks'| ensures Together(rest + Pushed(q, i, j), x, y) || LessEq(ks'[x], ks'[y]) {
      if q.Has(x) && q.Has(y) {
        InsideOrders(ks', rest, q, i, j, pivot, x, y);
      } else if !q.Has(x) && !q.Has(y) {
        OutsideOrders(ks, rest, q, Pushed(q, i, j), x, y);
      }
    }
  }

  lemma InsideOrders(ks: Keys, rest: seq<Range>, q: Range, i: int, j: int, pivot: seq<byte>, x: int, y: int)
    requires Split(ks, q, i, j, pivot) && q.left <= x < y <= q.right
    ensures Together(rest + Pushed(q, i, j), x, y) || LessEq(ks[x], ks[y])
  {
    var pushed := Pushed(q, i, j);
    var all := rest + pushed;
    if y <= j {
      assert all[|rest|] == Range(q.left, j);
    } else if x >= i {
      assert all[|all| - 1] == Range(i, q.right);
    } else {
      LessEqTransitive(ks[x], pivot, ks[y]);
    }
  }

  lemma OutsideOrders(ks: Keys, rest: seq<Range>, q: Range, pushed: seq<Range>, x: int, y: int)
    requires OrderedApart(ks, rest + [q]) && 0 <= x < y < |ks| && !q.Has(x) && !q.Has(y)
    ensures Together(rest + pushed, x, y) || LessEq(ks[x], ks[y])
  {
    var all := rest + [q];
    if Together(all, x, y) {
      var k :| 0 <= k < |all| && all[k].Has(x) && all[k].Has(y);
      assert (rest + pushed)[k] == all[k];
    }
  }

  lemma PushOne(n: int, pending: seq<Range>, q: Range)
    requires PendingOk(n, pending) && AtLeastTwoEach(pending) && 0 <= q.left < q.right < n
    requires forall k :: 0 <= k < |pending| ==> Apart(pending[k], q)
    ensures PendingOk(n, pending + [q]) && AtLeastTwoEach(pending + [q])
  {
    var all := pending + [q];
    forall a, b | 0 <= a < b < |all| ensures Apart(all[a], all[b]) {
      assert b < |pending| ==> Apart(pending[a], pending[b]);
    }
  }

  lemma RestOk(n: int, rest: seq<Range>, q: Range)
    requires PendingOk(n, rest + [q])
    ensures PendingOk(n, rest) && 0 <= q.left <= q.right < n
    ensures forall k :: 0 <= k < |rest| ==> Apart(rest[k], q)
  {
    var all := rest + [q];
    assert all[|rest|] == q && all[..|rest|] == rest;
    forall k | 0 <= k < |rest| ensures Apart(rest[k], q) && 0 <= rest[k].left <= rest[k].right < n {
      assert Apart(all[k], all[|rest|]) && all[k] == rest[k];
    }
    forall a, b | 0 <= a < b < |rest| ensures Apart(rest[a], rest[b]) {
      assert Apart(all[a], all[b]);
    }
  }

  /** The new pending ranges lie inside the popped one and do not meet. */
  lemma PassPending(n: int, rest: seq<Range>, q: Range, i: int, j: int)
    requires PendingOk(n, rest + [q]) && AtLeastTwoEach(rest)
    requires q.left < i && j < q.right && j < i
    ensures PendingOk(n, rest + Pushed(q, i, j)) && AtLeastTwoEach(rest + Pushed(q, i, j))
  {
    RestOk(n, rest, q);
    var l, r := Range(q.left, j), Range(i, q.right);
    var half := if q.left < j then rest + [l] else rest;
    if q.left < j {
      PushOne(n, rest, l);
    }
    if i < q.right {
      PushOne(n, half, r);
    }
    assert rest + Pushed(q, i, j) == if i < q.right then half + [r] else half;
  }

  /** Bound on the passes still to come: strictly smaller after every pass. */
  function Work(pending: seq<Range>): int {
    2 * Total(pending) - |pending|
  }

  /** A pass pushes no more entries than it pops, and leaves less work. */
  lemma PassShrinks(rest: seq<Range>, q: Range, i: int, j: int)
    requires q.left < i && j < q.right && j < i
    ensures Total(rest + Pushed(q, i, j)) <= Total(rest) + q.Size() || q.left > q.right
    ensures q.left <= q.right ==> Work(rest + Pushed(q, i, j)) < Work(rest + [q])
  {
    var l, r := Range(q.left, j), Range(i, q.right);
    TotalPush(rest, q);
    TotalPush(rest, l);
    TotalPush(rest, r);
    TotalPush(rest + [l], r);
    assert Pushed(q, i, j) == [l, r] ==> rest + Pushed(q, i, j) == rest + [l] + [r];
    assert Pushed(q, i, j) == [] ==> rest + Pushed(q, i, j) == rest;
  }

  // ---- exchanging two entries inside the range

  function Swapped<T>(s: seq<T>, i: int, j: int): (r: seq<T>)
    requires 0 <= i < |s| && 0 <= j < |s|
    ensures |r| == |s| && multiset(r) == multiset(s)
  {
    s[i := s[j]][j := s[i]]
  }

  lemma SwapKeepsFence(ks: Keys, q: Range, i: int, j: int)
    requires Fenced(ks, q) && q.Has(i) && q.Has(j)
    ensures Fenced(Swapped(ks, i, j), q) && SameOutside(ks, Swapped(ks, i, j), q)
  {
  }

  // ---- the two scans of a pass

  /** State of a pass. While i and j have not met, an entry not below the pivot (at `up`) lies ahead of i
      and one not above it (at `down`) lies ahead of j: first the pivot itself, then the last pair exchanged. */
  ghost predicate Scanning(ks: Keys, q: Range, i: int, j: int, up: int, down: int, pivot: seq<byte>) {
    && 0 <= q.left <= q.right < |ks| && q.left <= i <= q.right + 1 && q.left - 1 <= j <= q.right
    && (forall x :: q.left <= x < i ==> LessEq(ks[x], pivot))
    && (forall y :: j < y <= q.right ==> LessEq(pivot, ks[y]))
    && (i <= j ==> i <= up <= q.right && q.left <= down <= j && LessEq(pivot, ks[up]) && LessEq(ks[down], pivot))
    && ((i == q.left && j == q.right && up == down) || (q.left < i && j < q.right))
  }

  lemma ExchangeStep(ks: Keys, q: Range, i: int, j: int, up: int, down: int, pivot: seq<byte>, i1: int, j1: int)
    requires Scanning(ks, q, i, j, up, down, pivot) && i <= i1 <= j1 <= j
    requires LessEq(pivot, ks[i1]) && forall x :: i <= x < i1 ==> LessEq(ks[x], pivot)
    requires LessEq(ks[j1], pivot) && forall y :: j1 < y <= j ==> LessEq(pivot, ks[y])
    ensures Scanning(Swapped(ks, i1, j1), q, i1 + 1, j1 - 1, j1, i1, pivot)
  {
    var ks' := Swapped(ks, i1, j1);
    forall x | q.left <= x < i1 + 1 ensures LessEq(ks'[x], pivot) {
      assert x < i1 ==> ks'[x] == ks[x];
    }
    forall y | j1 - 1 < y <= q.right ensures LessEq(pivot, ks'[y]) {
      assert y > j1 ==> ks'[y] == ks[y];
    }
  }

  // ---- between passes

  /** What holds between passes: entries not in one pending range are in order, and the pending ranges
      hold no more entries than the table, so their slots fit a stack of as many slots as entries. */
  ghost predicate BetweenPasses(ks: Keys, pending: seq<Range>) {
    && PendingOk(|ks|, pending) && (AtLeastTwoEach(pending) || |pending| == 1)
    && Total(pending) <= |ks| && OrderedApart(ks, pending)
  }

  lemma StartOrders(ks: Keys)
    requires |ks| > 0
    ensures BetweenPasses(ks, [Range(0, |ks| - 1)])
  {
    var pending := [Range(0, |ks| - 1)];
    TotalPush([], pending[0]);
    assert [] + pending == pending;
    forall x, y | 0 <= x < y < |ks| ensures Together(pending, x, y) {
      assert pending[0].Has(x) && pending[0].Has(y);
    }
  }

  lemma PassBetween(ks: Keys, ks': Keys, rest: seq<Range>, q: Range, i: int, j: int, pivot: seq<byte>)
    requires BetweenPasses(ks, rest + [q])
    requires SameOutside(ks, ks', q) && Fenced(ks', q) && Split(ks', q, i, j, pivot)
    ensures BetweenPasses(ks', rest + Pushed(q, i, j))
    ensures 2 * |rest + Pushed(q, i, j)| <= |ks|
    ensures Work(rest + Pushed(q, i, j)) < Work(rest + [q])
  {
    assert AtLeastTwoEach(rest) by {
      assert forall k :: 0 <= k < |rest| ==> (rest + [q])[k] == rest[k];
    }
    PassOrders(ks, ks', rest, q, i, j, pivot);
    PassPending(|ks|, rest, q, i, j);
    PassShrinks(rest, q, i, j);
    TotalPush(rest, q);
    TwoSlotsPerRange(|ks|, rest + Pushed(q, i, j));
  }

  lemma WorkNonNegative(n: int, pending: seq<Range>)
    requires PendingOk(n, pending)
    ensures Work(pending) >= 0
  {
    TwoSlotsPerRange(n, pending);
  }

  lemma NothingPending(ks: Keys)
    requires OrderedApart(ks, [])
    ensures Sorted(ks)
  {
    assert forall x, y :: !Together([], x, y);
  }
}
