/** The stack of xipQuickSort: how many slots the sort of a given sequence of keys takes, and the worst case. */
module XipSortStack {
  import opened Bytes
  import opened CStrings
  import opened XipSortSpec

  // ---- the sort on the sequence of keys

  /** Where the scan from the left stops: at the first key from i on that is not below the pivot. */
  function Up(ks: Keys, pivot: seq<byte>, i: nat): (r: nat)
    ensures i <= r
    decreases |ks| - i
  {
    if i < |ks| && Less(ks[i], pivot) then Up(ks, pivot, i + 1) else i
  }

  /** Where the scan from the right stops: at the last key up to j that is not above the pivot. */
  function Down(ks: Keys, pivot: seq<byte>, j: int): (r: int)
    requires j < |ks|
    ensures r <= j
    decreases j + 1
  {
    if 0 <= j && Less(pivot, ks[j]) then Down(ks, pivot, j - 1) else j
  }

  /** What a pass leaves: the keys, and where the two scans have passed each other. */
  datatype Pass = Pass(keys: Keys, i: int, j: int)

  /** One turn of a pass: scan from both ends, and exchange the keys found unless the scans have passed each other. */
  function Turn(ks: Keys, pivot: seq<byte>, i: nat, j: int): (p: Pass)
    requires i <= j < |ks|
    ensures |p.keys| == |ks| && i <= p.i && p.j <= j && (p.i <= p.j ==> p.j - p.i < j - i)
  {
    var i', j' := Up(ks, pivot, i), Down(ks, pivot, j);
    if i' <= j' then Pass(Swapped(ks, i', j'), i' + 1, j' - 1) else Pass(ks, i', j')
  }

  lemma TurnIs(ks: Keys, pivot: seq<byte>, i: nat, j: int, i': nat, j': int)
    requires i <= j < |ks| && i' == Up(ks, pivot, i) && j' == Down(ks, pivot, j)
    ensures Turn(ks, pivot, i, j) == if i' <= j' then Pass(Swapped(ks, i', j'), i' + 1, j' - 1) else Pass(ks, i', j')
  {
  }

  /** A pass: one turn after the other until the scans have passed each other. */
  function RunPass(ks: Keys, pivot: seq<byte>, i: nat, j: int): (p: Pass)
    requires j < |ks|
    ensures |p.keys| == |ks|
    decreases if i > j then 0 else j - i + 1
  {
    if i > j then Pass(ks, i, j)
    else
      var t := Turn(ks, pivot, i, j);
      RunPass(t.keys, pivot, t.i, t.j)
  }

  /** The pass over the range q, whose pivot is the key in the middle. */
  function PassOf(ks: Keys, q: Range): (p: Pass)
    requires 0 <= q.left <= q.right < |ks|
    ensures |p.keys| == |ks|
  {
    RunPass(ks, ks[(q.left + q.right) / 2], q.left, q.right)
  }

  /** The scan from the left ends no later than at a key not below the pivot. */
  lemma {:induction false} UpStops(ks: Keys, pivot: seq<byte>, i: nat, stop: nat)
    requires i <= stop < |ks| && LessEq(pivot, ks[stop])
    ensures i <= Up(ks, pivot, i) <= stop && LessEq(pivot, ks[Up(ks, pivot, i)])
    ensures forall x :: i <= x < Up(ks, pivot, i) ==> LessEq(ks[x], pivot)
    decreases stop - i
  {
    StrCmpAntisymmetric(ks[i], pivot);
    if Less(ks[i], pivot) {
      UpStops(ks, pivot, i + 1, stop);
    }
  }

  /** The scan from the right ends no earlier than at a key not above the pivot. */
  lemma {:induction false} DownStops(ks: Keys, pivot: seq<byte>, j: int, stop: nat)
    requires stop <= j < |ks| && LessEq(ks[stop], pivot)
    ensures stop <= Down(ks, pivot, j) <= j && LessEq(ks[Down(ks, pivot, j)], pivot)
    ensures forall y :: Down(ks, pivot, j) < y <= j ==> LessEq(pivot, ks[y])
    decreases j - stop
  {
    StrCmpAntisymmetric(ks[j], pivot);
    if Less(pivot, ks[j]) {
      DownStops(ks, pivot, j - 1, stop);
    }
  }

  // ---- the scans, one key after the other

  ghost predicate ScanningUp(ks: Keys, pivot: seq<byte>, from: nat, i: nat, stop: nat) {
    from <= i <= stop < |ks| && LessEq(pivot, ks[stop]) && Up(ks, pivot, from) == Up(ks, pivot, i)
  }

  lemma ScanUpStep(ks: Keys, pivot: seq<byte>, from: nat, i: nat, stop: nat)
    requires ScanningUp(ks, pivot, from, i, stop) && Less(ks[i], pivot)
    ensures i < stop && ScanningUp(ks, pivot, from, i + 1, stop)
  {
    StrCmpAntisymmetric(ks[i], pivot);
  }

  lemma ScanUpEnds(ks: Keys, pivot: seq<byte>, from: nat, i: nat, stop: nat)
    requires ScanningUp(ks, pivot, from, i, stop) && !Less(ks[i], pivot)
    ensures i == Up(ks, pivot, from)
  {
  }

  ghost predicate ScanningDown(ks: Keys, pivot: seq<byte>, from: nat, j: nat, stop: nat) {
    stop <= j <= from < |ks| && LessEq(ks[stop], pivot) && Down(ks, pivot, from) == Down(ks, pivot, j)
  }

  lemma ScanDownStep(ks: Keys, pivot: seq<byte>, from: nat, j: nat, stop: nat)
    requires ScanningDown(ks, pivot, from, j, stop) && StrCmp(ks[j], pivot) > 0
    ensures stop < j && ScanningDown(ks, pivot, from, j - 1, stop)
  {
    StrCmpAntisymmetric(ks[j], pivot);
  }

  lemma ScanDownEnds(ks: Keys, pivot: seq<byte>, from: nat, j: nat, stop: nat)
    requires ScanningDown(ks, pivot, from, j, stop) && StrCmp(ks[j], pivot) <= 0
    ensures j == Down(ks, pivot, from)
  {
    StrCmpAntisymmetric(ks[j], pivot);
  }

  // ---- what a pass leaves

  /** The pass p over the range q of ks exchanges keys inside the range only and splits it around the pivot. */
  ghost predicate SplitBy(ks: Keys, q: Range, p: Pass, pivot: seq<byte>) {
    SameOutside(ks, p.keys, q) && Fenced(p.keys, q) && Split(p.keys, q, p.i, p.j, pivot)
  }

  /** A turn keeps the state of the pass, with the keys it has exchanged as the next sentinels. */
  lemma TurnScans(ks: Keys, q: Range, i: nat, j: int, up: int, down: int, pivot: seq<byte>)
      returns (up': int, down': int)
    requires Scanning(ks, q, i, j, up, down, pivot) && Fenced(ks, q) && i <= j
    ensures var t := Turn(ks, pivot, i, j);
      Scanning(t.keys, q, t.i, t.j, up', down', pivot) && Fenced(t.keys, q) && SameOutside(ks, t.keys, q)
  {
    UpStops(ks, pivot, i, up);
    DownStops(ks, pivot, j, down);
    var i', j' := Up(ks, pivot, i), Down(ks, pivot, j);
    up', down' := up, down;
    if i' <= j' {
      ExchangeStep(ks, q, i, j, up, down, pivot, i', j');
      SwapKeepsFence(ks, q, i', j');
      up', down' := j', i';
    }
  }

  lemma SplitByLater(ks: Keys, ks': Keys, q: Range, p: Pass, pivot: seq<byte>)
    requires SameOutside(ks, ks', q) && SplitBy(ks', q, p, pivot)
    ensures SplitBy(ks, q, p, pivot)
  {
  }

  lemma ScansPassed(ks: Keys, q: Range, i: nat, j: int, up: int, down: int, pivot: seq<byte>)
    requires Scanning(ks, q, i, j, up, down, pivot) && Fenced(ks, q) && i > j
    ensures SplitBy(ks, q, Pass(ks, i, j), pivot)
  {
  }

  lemma {:induction false} RunPassSplits(ks: Keys, q: Range, i: nat, j: int, up: int, down: int, pivot: seq<byte>)
    requires Scanning(ks, q, i, j, up, down, pivot) && Fenced(ks, q)
    ensures SplitBy(ks, q, RunPass(ks, pivot, i, j), pivot)
    decreases if i > j then 0 else j - i + 1
  {
    if i > j {
      ScansPassed(ks, q, i, j, up, down, pivot);
    } else {
      var t := Turn(ks, pivot, i, j);
      var up', down' := TurnScans(ks, q, i, j, up, down, pivot);
      RunPassSplits(t.keys, q, t.i, t.j, up', down', pivot);
      SplitByLater(ks, t.keys, q, RunPass(t.keys, pivot, t.i, t.j), pivot);
    }
  }

  lemma ScanStarts(ks: Keys, q: Range, mid: int)
    requires 0 <= q.left <= mid <= q.right < |ks|
    ensures Scanning(ks, q, q.left, q.right, mid, mid, ks[mid])
  {
  }

  lemma PassSplits(ks: Keys, q: Range)
    requires Fenced(ks, q)
    ensures SplitBy(ks, q, PassOf(ks, q), ks[(q.left + q.right) / 2])
  {
    var mid := (q.left + q.right) / 2;
    ScanStarts(ks, q, mid);
    RunPassSplits(ks, q, q.left, q.right, mid, mid, ks[mid]);
  }

  /** The ranges pending after the pass over the last of them. */
  function Next(ks: Keys, rest: seq<Range>, q: Range): seq<Range>
    requires 0 <= q.left <= q.right < |ks|
  {
    rest + Pushed(q, PassOf(ks, q).i, PassOf(ks, q).j)
  }

  lemma NextBetween(ks: Keys, rest: seq<Range>, q: Range)
    requires BetweenPasses(ks, rest + [q])
    ensures 0 <= q.left <= q.right < |ks| && BetweenPasses(PassOf(ks, q).keys, Next(ks, rest, q))
    ensures 2 * |Next(ks, rest, q)| <= |ks| && 0 <= Work(Next(ks, rest, q)) < Work(rest + [q])
  {
    PoppedIsFenced(ks, rest, q);
    PassSplits(ks, q);
    var p := PassOf(ks, q);
    PassBetween(ks, p.keys, rest, q, p.i, p.j, ks[(q.left + q.right) / 2]);
    WorkNonNegative(|ks|, Next(ks, rest, q));
  }

  /** The most ranges that are pending at one time from here on. */
  ghost function Peak(ks: Keys, pending: seq<Range>): (peak: nat)
    requires BetweenPasses(ks, pending)
    ensures |pending| <= peak
    decreases Work(pending)
  {
    if pending == [] then 0
    else
      var rest, q := pending[..|pending| - 1], pending[|pending| - 1];
      assert pending == rest + [q];
      NextBetween(ks, rest, q);
      var later := Peak(PassOf(ks, q).keys, Next(ks, rest, q));
      if later > |pending| then later else |pending|
  }

  lemma PeakOf(ks: Keys, pending: seq<Range>, rest: seq<Range>, q: Range, keys: Keys, next: seq<Range>)
    requires BetweenPasses(ks, pending) && pending == rest + [q] && 0 <= q.left <= q.right < |ks|
    requires keys == PassOf(ks, q).keys && next == Next(ks, rest, q)
    ensures BetweenPasses(keys, next) && Peak(keys, next) <= Peak(ks, pending)
  {
    assert pending[..|pending| - 1] == rest && pending[|pending| - 1] == q;
    NextBetween(ks, rest, q);
  }

  /** The slots that the sort of these keys takes: two for each pending range. An empty table takes two for the
      range 0..-1, which is popped and dropped. */
  ghost function Slots(ks: Keys): nat {
    if ks == [] then 2
    else
      StartOrders(ks);
      2 * Peak(ks, [Range(0, |ks| - 1)])
  }

  /** Sorting the pending ranges fits a stack with this many slots. */
  ghost predicate Fits(ks: Keys, pending: seq<Range>, slots: nat) {
    BetweenPasses(ks, pending) && 2 * Peak(ks, pending) <= slots
  }

  lemma SlotsAtStart(ks: Keys, slots: nat)
    requires |ks| > 0 && Slots(ks) <= slots
    ensures Fits(ks, [Range(0, |ks| - 1)], slots) && 2 <= slots
  {
    StartOrders(ks);
  }

  /** It still does after a pass, and the ranges pending then fit it. */
  lemma FitsNext(ks: Keys, rest: seq<Range>, q: Range, slots: nat)
    requires Fits(ks, rest + [q], slots) && 0 <= q.left <= q.right < |ks|
    ensures var p := PassOf(ks, q);
      && Fits(p.keys, rest + Pushed(q, p.i, p.j), slots) && q.left < p.i && p.j < q.right
      && 2 * |rest + Pushed(q, p.i, p.j)| <= slots && Work(rest + Pushed(q, p.i, p.j)) < Work(rest + [q])
  {
    NextBetween(ks, rest, q);
    PeakOf(ks, rest + [q], rest, q, PassOf(ks, q).keys, Next(ks, rest, q));
    PoppedIsFenced(ks, rest, q);
    PassSplits(ks, q);
  }

  // ---- no table needs more slots than it has entries

  lemma {:induction false} PeakBound(ks: Keys, pending: seq<Range>)
    requires BetweenPasses(ks, pending)
    ensures Peak(ks, pending) <= |pending| || 2 * Peak(ks, pending) <= |ks|
    decreases Work(pending)
  {
    if pending != [] {
      var rest, q := pending[..|pending| - 1], pending[|pending| - 1];
      assert pending == rest + [q];
      NextBetween(ks, rest, q);
      PeakBound(PassOf(ks, q).keys, Next(ks, rest, q));
    }
  }

  /** The slots that every table of n entries can do with. */
  function EnoughSlots(n: nat): nat {
    if n < 2 then 2 else 2 * (n / 2)
  }

  lemma SlotsBound(ks: Keys)
    ensures Slots(ks) <= EnoughSlots(|ks|)
  {
    if ks != [] {
      StartOrders(ks);
      PeakBound(ks, [Range(0, |ks| - 1)]);
    }
  }

  // ---- the worst case

  /** The r-th key of an increasing sequence: r characters. */
  function NthKey(r: nat): (k: seq<byte>)
    ensures |k| == r && 0 !in k
  {
    seq(r, _ => 1 as byte)
  }

  lemma {:induction false} NthKeysOrdered(a: nat, b: nat)
    ensures Less(NthKey(a), NthKey(b)) <==> a < b
  {
    if a > 0 && b > 0 {
      assert NthKey(a)[1..] == NthKey(a - 1) && NthKey(b)[1..] == NthKey(b - 1);
      NthKeysOrdered(a - 1, b - 1);
    }
  }

  /** Ranks of m keys, none below b, that the sort takes apart two at a time: every pass leaves the two
      smallest ones pending on the left and such a sequence, two shorter, on the right. */
  function Worst(m: nat, b: nat): (r: seq<nat>)
    ensures |r| == m && forall x :: 0 <= x < m ==> r[x] >= b
  {
    if m <= 3 then seq(m, x requires 0 <= x => b + x)
    else if m == 4 then [b, b + 2, b + 3, b + 1]
    else
      var r, mid := Worst(m - 2, b + 2), (m - 1) / 2 - 2;
      [b, r[mid]] + r[mid := b + 1]
  }

  /** Keys left..left + |r| - 1 have these ranks. */
  ghost predicate Ranked(ks: Keys, left: nat, r: seq<nat>) {
    left + |r| <= |ks| && forall x :: 0 <= x < |r| ==> ks[left + x] == NthKey(r[x])
  }

  lemma RankedAt(ks: Keys, left: nat, r: seq<nat>, x: nat)
    requires Ranked(ks, left, r) && x < |r|
    ensures ks[left + x] == NthKey(r[x])
  {
  }

  lemma {:induction false} DownSkips(ks: Keys, pivot: seq<byte>, j: int, stop: nat)
    requires stop <= j < |ks| && !Less(pivot, ks[stop]) && forall y :: stop < y <= j ==> Less(pivot, ks[y])
    ensures Down(ks, pivot, j) == stop
    decreases j - stop
  {
    if j > stop {
      DownSkips(ks, pivot, j - 1, stop);
    }
  }

  /** Where the two smallest ranks are in a worst sequence: first, and in the middle. */
  lemma WorstRanks(m: nat, b: nat, x: nat)
    requires m >= 5 && x < m
    ensures var r := Worst(m, b);
      r[0] == b && r[(m - 1) / 2] == b + 1 && (x != 0 && x != (m - 1) / 2 ==> r[x] >= b + 2)
  {
  }

  /** Keys left..right are the worst ones for their range. */
  ghost predicate WorstAt(ks: Keys, left: nat, right: nat, b: nat) {
    left < right && Ranked(ks, left, Worst(right - left + 1, b))
  }

  lemma AboveMiddle(ks: Keys, left: nat, right: nat, b: nat, y: nat)
    requires right >= left + 4 && WorstAt(ks, left, right, b) && (left + right) / 2 < y <= right
    ensures Less(NthKey(b + 1), ks[y])
  {
    var m := right - left + 1;
    assert (m - 1) / 2 < y - left;
    WorstRanks(m, b, y - left);
    NthKeysOrdered(b + 1, Worst(m, b)[y - left]);
    RankedAt(ks, left, Worst(m, b), y - left);
  }

  /** The first turn of the pass takes the pivot to the second place. */
  lemma FirstTurn(ks: Keys, left: nat, right: nat, b: nat)
    requires right >= left + 4 && WorstAt(ks, left, right, b)
    ensures var mid := (left + right) / 2;
      ks[mid] == NthKey(b + 1) && Turn(ks, ks[mid], left, right) == Pass(Swapped(ks, left + 1, mid), left + 2, mid - 1)
  {
    var v, m, mid := NthKey(b + 1), right - left + 1, (left + right) / 2;
    var r := Worst(m, b);
    assert mid == left + (m - 1) / 2;
    WorstRanks(m, b, 0);
    WorstRanks(m, b, 1);
    RankedAt(ks, left, r, 0);
    RankedAt(ks, left, r, 1);
    RankedAt(ks, left, r, (m - 1) / 2);
    NthKeysOrdered(b, b + 1);
    NthKeysOrdered(r[1], b + 1);
    assert Up(ks, v, left + 1) == left + 1;
    forall y | mid < y <= right ensures Less(v, ks[y]) {
      AboveMiddle(ks, left, right, b, y);
    }
    NthKeysOrdered(b + 1, b + 1);
    DownSkips(ks, v, right, mid);
  }

  /** What is right of the second place then is a worst sequence again. */
  lemma RestIsWorst(ks: Keys, left: nat, right: nat, b: nat)
    requires right >= left + 4 && WorstAt(ks, left, right, b)
    ensures var ks' := Swapped(ks, left + 1, (left + right) / 2);
      ks'[left + 1] == ks[(left + right) / 2] && WorstAt(ks', left + 2, right, b + 2)
  {
    var m, mid := right - left + 1, (left + right) / 2;
    var all, r, ks' := Worst(m, b), Worst(m - 2, b + 2), Swapped(ks, left + 1, mid);
    RankedAt(ks, left, all, 1);
    forall x | 0 <= x < |r| ensures ks'[left + 2 + x] == NthKey(r[x]) {
      RankedAt(ks, left, all, x + 2);
    }
    assert right - (left + 2) + 1 == m - 2;
  }

  /** There is no second exchange. */
  lemma SecondTurn(ks: Keys, left: nat, right: nat, b: nat, j: int)
    requires WorstAt(ks, left + 2, right, b + 2) && ks[left + 1] == NthKey(b + 1) && left + 1 <= j <= right
    ensures left + 2 <= j ==> Turn(ks, NthKey(b + 1), left + 2, j) == Pass(ks, left + 2, left + 1)
  {
    var v, r := NthKey(b + 1), Worst(right - left - 1, b + 2);
    if left + 2 <= j {
      RankedAt(ks, left + 2, r, 0);
      NthKeysOrdered(r[0], b + 1);
      forall y | left + 1 < y <= j ensures Less(v, ks[y]) {
        NthKeysOrdered(b + 1, r[y - left - 2]);
        RankedAt(ks, left + 2, r, y - left - 2);
      }
      NthKeysOrdered(b + 1, b + 1);
      DownSkips(ks, v, j, left + 1);
    }
  }

  /** A pass of one turn, after which the scans have nothing more to exchange. */
  lemma PassOfTwoTurns(ks: Keys, q: Range, pivot: seq<byte>, keys: Keys, i: nat, j: int, p: Pass)
    requires 0 <= q.left <= q.right < |ks| && pivot == ks[(q.left + q.right) / 2]
    requires Turn(ks, pivot, q.left, q.right) == Pass(keys, i, j) && p.keys == keys && p.i > p.j
    requires i <= j < |keys| ==> Turn(keys, pivot, i, j) == p
    requires i > j ==> p == Pass(keys, i, j)
    ensures PassOf(ks, q) == p
  {
    assert RunPass(keys, pivot, i, j) == p;
  }

  /** A pass over a worst sequence of five or more keys makes the one exchange. */
  lemma WorstPass(ks: Keys, left: nat, right: nat, b: nat)
    requires right >= left + 4 && WorstAt(ks, left, right, b)
    ensures var keys := Swapped(ks, left + 1, (left + right) / 2);
      PassOf(ks, Range(left, right)) == Pass(keys, left + 2, left + 1) && WorstAt(keys, left + 2, right, b + 2)
  {
    var mid := (left + right) / 2;
    var keys := Swapped(ks, left + 1, mid);
    FirstTurn(ks, left, right, b);
    RestIsWorst(ks, left, right, b);
    SecondTurn(keys, left, right, b, mid - 1);
    PassOfTwoTurns(ks, Range(left, right), NthKey(b + 1), keys, left + 2, mid - 1, Pass(keys, left + 2, left + 1));
  }

  /** Four keys are taken apart into two and two. */
  lemma WorstFour(ks: Keys, left: nat, b: nat)
    requires Ranked(ks, left, Worst(4, b))
    ensures var p := PassOf(ks, Range(left, left + 3));
      p.i == left + 2 && p.j == left + 1
  {
    var v, r := NthKey(b + 2), Worst(4, b);
    assert r == [b, b + 2, b + 3, b + 1];
    RankedAt(ks, left, r, 0);
    RankedAt(ks, left, r, 1);
    RankedAt(ks, left, r, 2);
    RankedAt(ks, left, r, 3);
    NthKeysOrdered(b, b + 2);
    NthKeysOrdered(b + 2, b + 2);
    NthKeysOrdered(b + 2, b + 1);
    NthKeysOrdered(b + 2, b + 3);
    NthKeysOrdered(b + 3, b + 2);
    assert Up(ks, v, left + 1) == left + 1 && Up(ks, v, left) == left + 1 && Down(ks, v, left + 3) == left + 3;
    var ks' := Swapped(ks, left + 1, left + 3);
    assert Turn(ks, v, left, left + 3) == Pass(ks', left + 2, left + 2);
    assert ks'[left + 1] == NthKey(b + 1) && ks'[left + 2] == NthKey(b + 3);
    assert Up(ks', v, left + 2) == left + 2 && Down(ks', v, left + 1) == left + 1 && Down(ks', v, left + 2) == left + 1;
    assert Turn(ks', v, left + 2, left + 2) == Pass(ks', left + 2, left + 1);
    assert RunPass(ks', v, left + 2, left + 2) == Pass(ks', left + 2, left + 1);
  }

  lemma NextHalves(ks: Keys, rest: seq<Range>, left: nat, right: nat)
    requires left + 3 <= right < |ks|
    requires var p := PassOf(ks, Range(left, right)); p.i == left + 2 && p.j == left + 1
    ensures Next(ks, rest, Range(left, right)) == rest + [Range(left, left + 1)] + [Range(left + 2, right)]
  {
  }

  /** After such a pass both halves are pending. */
  lemma BothHalves(ks: Keys, rest: seq<Range>, left: nat, right: nat, keys: Keys, half: seq<Range>)
    requires left + 3 <= right < |ks| && BetweenPasses(ks, rest + [Range(left, right)])
    requires PassOf(ks, Range(left, right)) == Pass(keys, left + 2, left + 1) && half == rest + [Range(left, left + 1)]
    ensures BetweenPasses(keys, half + [Range(left + 2, right)])
    ensures |rest| + 2 <= Peak(keys, half + [Range(left + 2, right)]) <= Peak(ks, rest + [Range(left, right)])
  {
    NextHalves(ks, rest, left, right);
    var q := Range(left, right);
    RestOk(|ks|, rest, q);
    PeakOf(ks, rest + [q], rest, q, keys, half + [Range(left + 2, right)]);
  }

  /** A worst sequence of m keys gets m / 2 ranges pending on top of those below it. */
  lemma {:induction false} WorstPeak(ks: Keys, rest: seq<Range>, left: nat, right: nat, b: nat)
    requires WorstAt(ks, left, right, b) && BetweenPasses(ks, rest + [Range(left, right)])
    ensures Peak(ks, rest + [Range(left, right)]) >= |rest| + (right - left + 1) / 2
    decreases right - left
  {
    var half := rest + [Range(left, left + 1)];
    if right == left + 3 {
      WorstFour(ks, left, b);
      BothHalves(ks, rest, left, right, PassOf(ks, Range(left, right)).keys, half);
    } else if right > left + 3 {
      var keys := Swapped(ks, left + 1, (left + right) / 2);
      WorstPass(ks, left, right, b);
      BothHalves(ks, rest, left, right, keys, half);
      WorstPeak(keys, half, left + 2, right, b + 2);
    }
  }

  /** The worst keys for a table of n entries. */
  function WorstKeys(n: nat): (ks: Keys)
    ensures |ks| == n
  {
    var r := Worst(n, 0);
    seq(n, x requires 0 <= x < n => NthKey(r[x]))
  }

  lemma WorstSlotsAtLeast(n: nat)
    requires n >= 2
    ensures Slots(WorstKeys(n)) >= 2 * (n / 2)
  {
    var ks := WorstKeys(n);
    StartOrders(ks);
    assert [] + [Range(0, n - 1)] == [Range(0, n - 1)];
    WorstPeak(ks, [], 0, n - 1, 0);
  }

  lemma WorstSlots(n: nat)
    ensures Slots(WorstKeys(n)) == EnoughSlots(n)
  {
    var ks := WorstKeys(n);
    SlotsBound(ks);
    if n == 1 {
      StartOrders(ks);
    } else if n >= 2 {
      WorstSlotsAtLeast(n);
    }
  }

  /** A stack suffices for every table of n entries if and only if it has twice n / 2 slots, and two. */
  lemma StackSufficesIff(n: nat, slots: nat)
    ensures (forall ks: Keys {:trigger Slots(ks)} :: |ks| == n ==> Slots(ks) <= slots) <==> EnoughSlots(n) <= slots
  {
    if EnoughSlots(n) <= slots {
      forall ks: Keys {:trigger Slots(ks)} | |ks| == n ensures Slots(ks) <= slots {
        SlotsBound(ks);
      }
    } else {
      WorstSlots(n);
    }
  }

  /** The 64 slots of the source suffice for every table of n entries if and only if n is at most 65. */
  lemma SixtyFourSuffice(n: nat)
    ensures (forall ks: Keys {:trigger Slots(ks)} :: |ks| == n ==> Slots(ks) <= 64) <==> n <= 65
  {
    StackSufficesIff(n, 64);
  }
}
