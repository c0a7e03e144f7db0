/** fapi2::buffer: bit fields of a word of up to 64 bits; bit 0 is the left-most. */
module BitBuffer {
  import opened Bytes
  import opened Words

  datatype ReturnCode = RcSuccess | RcInvalidParameter

  const MIN_WIDTH := 8
  const MAX_WIDTH := 64
  /** Narrower types are promoted to int before they are shifted. */
  const INT_WIDTH := 32

  /** Width of a buffer, or of the data moved in and out of it: that of an integral type. */
  predicate IntegralWidth(n: nat) {
    MIN_WIDTH <= n <= MAX_WIDTH
  }

  /** i + j - 1 in 32 bits. */
  function LastBit(i: u32, j: u32): (r: u32) {
    Low32(i + j + (U32_LIMIT - 1))
  }

  /** The bits that a bit-and-count pair names; a pair whose sum wraps past 32 bits names the bits from the
      left edge that it wraps onto. */
  predicate Named(bit: u32, count: u32, i: nat) {
    if bit + count <= U32_LIMIT then bit <= i < bit + count else i < bit + count - U32_LIMIT
  }

  /** The pairs that the range check accepts: those that lie in the word, and those whose 32-bit sum wraps
      back into it. */
  predicate RangeAccepted(width: nat, bit: u32, count: u32) {
    1 <= bit + count <= width || U32_LIMIT < bit + count <= U32_LIMIT + width
  }

  lemma RangeCheckExact(width: nat, bit: u32, count: u32)
    requires IntegralWidth(width)
    ensures LastBit(count, bit) < width <==> RangeAccepted(width, bit, count)
  {
    if bit + count > U32_LIMIT {
      assert LastBit(count, bit) == bit + count - 1 - U32_LIMIT;
    }
  }

  /** Two bits from the highest bit number on are accepted, although no word has them; setting them sets bit 0. */
  lemma RangeCheckWraps(width: nat)
    requires IntegralWidth(width)
    ensures ShiftsDefined(width, 0xffff_ffff, 2) && LastBit(2, 0xffff_ffff) < width < 0xffff_ffff
    ensures forall i :: 0 <= i ==> (Named(0xffff_ffff, 2, i) <==> i == 0)
  {
    RangeCheckExact(width, 0xffff_ffff, 2);
  }

  /** C defines the shifts of an accepted pair: the mask of `count` ones is shifted right by the width less the
      count, in a word of the type's own width or of that of int, if the type is narrower. */
  predicate ShiftsDefined(width: nat, bit: u32, count: u32) {
    RangeAccepted(width, bit, count) ==> 1 <= count <= width || (count == 0 && width < INT_WIDTH)
  }

  /** The windows that the four comparisons of insert accept: those that lie in their words, and those whose
      32-bit sums both wrap. */
  predicate WindowsAccepted(width: nat, sourceWidth: nat, targetStart: u32, len: u32, sourceStart: u32) {
    targetStart < width && sourceStart < sourceWidth
    && ((targetStart + len <= width && sourceStart + len <= sourceWidth)
        || (targetStart + len >= U32_LIMIT && sourceStart + len >= U32_LIMIT))
  }

  lemma WindowCheckExact(width: nat, sourceWidth: nat, targetStart: u32, len: u32, sourceStart: u32)
    requires IntegralWidth(width) && IntegralWidth(sourceWidth)
    ensures WindowsAccepted(width, sourceWidth, targetStart, len, sourceStart) <==>
      && Sum32(targetStart, len) <= width && Sum32(sourceStart, len) <= sourceWidth
      && targetStart < width && sourceStart < sourceWidth
  {
  }

  /** A window of 2^32 - 1 bits is accepted at bit 1 of every pair of words; no word has it, and insert would
      shift by 64 less that length. */
  lemma WindowCheckWraps(width: nat, sourceWidth: nat)
    requires IntegralWidth(width) && IntegralWidth(sourceWidth)
    ensures WindowsAccepted(width, sourceWidth, 1, 0xffff_ffff, 1) && 1 + 0xffff_ffff > width
    ensures !LengthDefined(width, sourceWidth, 1, 0xffff_ffff, 1)
  {
  }

  /** C defines the shifts by 64 less the length for accepted windows. */
  predicate LengthDefined(width: nat, sourceWidth: nat, targetStart: u32, len: u32, sourceStart: u32) {
    WindowsAccepted(width, sourceWidth, targetStart, len, sourceStart) ==> 1 <= len <= MAX_WIDTH
  }

  /** `to` with the bits of the window replaced by the source's. */
  function Inserted(to: Word, source: Word, targetStart: nat, len: nat, sourceStart: nat): (r: Word)
    requires targetStart + len <= |to| && sourceStart + len <= |source|
    ensures |r| == |to|
    ensures forall i :: 0 <= i < |to| ==>
      r[i] == if targetStart <= i < targetStart + len then source[sourceStart + i - targetStart] else to[i]
  {
    to[..targetStart] + source[sourceStart..sourceStart + len] + to[targetStart + len..]
  }

  function Reversed(w: Word): (r: Word)
    ensures |r| == |w| && forall i :: 0 <= i < |w| ==> r[i] == w[|w| - 1 - i]
  {
    seq(|w|, i requires 0 <= i < |w| => w[|w| - 1 - i])
  }

  lemma ReverseTwice(w: Word)
    ensures Reversed(Reversed(w)) == w
  {
    forall i | 0 <= i < |w| ensures Reversed(Reversed(w))[i] == w[i] {
      assert Reversed(Reversed(w))[i] == Reversed(w)[|w| - 1 - i];
    }
  }

  class Buffer {
    var data: Word

    constructor (w: Word)
      ensures data == w
    {
      data := w;
    }

    ghost predicate Valid()
      reads this
    {
      IntegralWidth(|data|)
    }

    /** Set `count` bits from `bit` on. The range check is made on a 32-bit sum. */
    method SetBit(bit: u32, count: u32 := 1) returns (rc: ReturnCode)
      requires Valid() && ShiftsDefined(|data|, bit, count)
      modifies this
      ensures |data| == |old(data)|
      ensures rc == if RangeAccepted(|data|, bit, count) then RcSuccess else RcInvalidParameter
      ensures rc == RcSuccess ==> forall i :: 0 <= i < |data| ==> data[i] == (old(data[i]) || Named(bit, count, i))
      ensures rc != RcSuccess ==> data == old(data)
    {
      var width := |data|;
      RangeCheckExact(width, bit, count);
      if LastBit(count, bit) >= width {
        return RcInvalidParameter;
      }
      var shift := Low32(width + 2 * U32_LIMIT - bit - count);
      var mask := BitMask(width, count, shift);
      data := Or(data, mask);
      return RcSuccess;
    }

    /** Clear `count` bits from `bit` on. */
    method ClearBit(bit: u32, count: u32 := 1) returns (rc: ReturnCode)
      requires Valid() && ShiftsDefined(|data|, bit, count)
      modifies this
      ensures |data| == |old(data)|
      ensures rc == if RangeAccepted(|data|, bit, count) then RcSuccess else RcInvalidParameter
      ensures rc == RcSuccess ==> forall i :: 0 <= i < |data| ==> data[i] == (old(data[i]) && !Named(bit, count, i))
      ensures rc != RcSuccess ==> data == old(data)
    {
      RangeCheckExact(|data|, bit, count);
      if LastBit(count, bit) >= |data| {
        return RcInvalidParameter;
      }
      var scratch := new Buffer(Zero(|data|));
      rc := scratch.SetBit(bit, count);
      if rc != RcSuccess {
        return RcInvalidParameter;
      }
      scratch.Invert();
      data := And(data, scratch.data);
    }

    /** Is any of these bits on? False when the range is not in the buffer. */
    method GetBit(bit: u32, count: u32 := 1) returns (on: bool)
      requires Valid() && ShiftsDefined(|data|, bit, count)
      ensures on
        == (RangeAccepted(|data|, bit, count) && exists i :: 0 <= i < |data| && Named(bit, count, i) && data[i])
    {
      var temp := new Buffer(Zero(|data|));
      var rc := temp.SetBit(bit, count);
      if rc != RcSuccess {
        return false;
      }
      var both := And(temp.data, data);
      on := true in both;
      if on {
        var i :| 0 <= i < |both| && both[i];
        assert Named(bit, count, i) && data[i];
      } else {
        forall i | 0 <= i < |data| && Named(bit, count, i) ensures !data[i] {
          assert both[i] in both;
        }
      }
    }

    method Invert()
      modifies this
      ensures data == Not(old(data))
    {
      data := Not(data);
    }

    /** Reverse the bits; the loop ends as soon as only zeros are left to be moved. */
    method Reverse()
      requires Valid()
      modifies this
      ensures data == Reversed(old(data))
    {
      ghost var w, k: nat := data, 0;
      var result, s := data, |data| - 1;
      ReversalStarts(w);
      data := Shr(data, 1);
      while true in data
        invariant s == |w| - 1 - k >= 0 && Moved(w, data, k + 1) && Collected(w, result, k)
        decreases s
      {
        result, data := Turn(result, data, w, k);
        s, k := s - 1, k + 1;
      }
      data := LeftEdge(result, data, s, w, k);
    }

    /** Insert `len` bits of a source word, from its bit `sourceStart` on, at bit `targetStart`. */
    method Insert(source: Word, targetStart: u32, len: u32, sourceStart: u32 := 0) returns (rc: ReturnCode)
      requires Valid() && IntegralWidth(|source|) && LengthDefined(|data|, |source|, targetStart, len, sourceStart)
      modifies this
      ensures |data| == |old(data)|
      ensures rc
        == if WindowsAccepted(|data|, |source|, targetStart, len, sourceStart) then RcSuccess else RcInvalidParameter
      ensures rc == RcSuccess ==> targetStart + len <= |data| && sourceStart + len <= |source|
      ensures rc == RcSuccess ==> data == Inserted(old(data), source, targetStart, len, sourceStart)
      ensures rc != RcSuccess ==> data == old(data)
    {
      WindowCheckExact(|data|, |source|, targetStart, len, sourceStart);
      if Sum32(targetStart, len) > |data| {
        return RcInvalidParameter;
      }
      if Sum32(sourceStart, len) > |source| {
        return RcInvalidParameter;
      }
      if targetStart >= |data| {
        return RcInvalidParameter;
      }
      if sourceStart >= |source| {
        return RcInvalidParameter;
      }
      data := Merge(data, source, targetStart, len, sourceStart);
      return RcSuccess;
    }

    /** Insert the right-most `len` bits of a source word. */
    method InsertFromRight(source: Word, targetStart: u32, len: u32) returns (rc: ReturnCode)
      requires Valid() && IntegralWidth(|source|)
      modifies this
      ensures |data| == |old(data)|
      ensures rc == if 1 <= len <= |source| && targetStart + len <= |data| then RcSuccess else RcInvalidParameter
      ensures rc == RcSuccess ==> data == Inserted(old(data), source, targetStart, len, |source| - len)
      ensures rc != RcSuccess ==> data == old(data)
    {
      if Sum32(targetStart, len) > |data| {
        return RcInvalidParameter;
      }
      if targetStart >= |data| {
        return RcInvalidParameter;
      }
      if len > |source| {
        return RcInvalidParameter;
      }
      rc := Insert(source, targetStart, len, |source| - len);
    }

    /** Copy `len` bits, from bit `sourceStart` on, into `out` at bit `targetStart`. */
    method Extract(out: Word, sourceStart: u32, len: u32, targetStart: u32 := 0) returns (rc: ReturnCode, out': Word)
      requires Valid() && IntegralWidth(|out|) && LengthDefined(|out|, |data|, targetStart, len, sourceStart)
      ensures rc
        == if WindowsAccepted(|out|, |data|, targetStart, len, sourceStart) then RcSuccess else RcInvalidParameter
      ensures rc == RcSuccess ==> targetStart + len <= |out| && sourceStart + len <= |data|
      ensures rc == RcSuccess ==> out' == Inserted(out, data, targetStart, len, sourceStart)
      ensures rc != RcSuccess ==> out' == out
    {
      var o := new Buffer(out);
      rc := o.Insert(data, targetStart, len, sourceStart);
      if rc != RcSuccess {
        return RcInvalidParameter, out;
      }
      return RcSuccess, o.data;
    }

    /** Copy `len` bits, from bit `sourceStart` on, into the right-most bits of `out`. */
    method ExtractToRight(out: Word, sourceStart: u32, len: u32) returns (rc: ReturnCode, out': Word)
      requires Valid() && IntegralWidth(|out|)
      ensures rc == if 1 <= len <= |out| && sourceStart + len <= |data| then RcSuccess else RcInvalidParameter
      ensures rc == RcSuccess ==> out' == Inserted(out, data, |out| - len, len, sourceStart)
      ensures rc != RcSuccess ==> out' == out
    {
      rc, out' := Extract(out, sourceStart, len, Low32(|out| + U32_LIMIT - len));
    }
  }

  /** The end of the reversal: move the result to the left edge. */
  method LeftEdge(result: Word, data: Word, s: nat, ghost w: Word, ghost k: nat) returns (r: Word)
    requires k < |w| && s == |w| - 1 - k && Collected(w, result, k) && Moved(w, data, k + 1) && true !in data
    ensures r == Reversed(w)
  {
    OnlyZerosLeft(w, data, k + 1);
    CollectedAll(w, result, k);
    r := Shl(result, s);
  }

  /** One turn of the reversal. */
  method Turn(result: Word, data: Word, ghost w: Word, ghost k: nat) returns (result': Word, data': Word)
    requires Collected(w, result, k) && Moved(w, data, k + 1) && true in data
    ensures k + 1 < |w| && Collected(w, result', k + 1) && Moved(w, data', k + 1 + 1)
  {
    assert k + 1 < |w|;
    TurnCollects(w, data, result, k);
    result' := Shl(result, 1);
    result' := Or(result', And(data, Widen([true], |data|)));
    data' := Shr(data, 1);
  }

  /** The word w shifted right by k. */
  ghost predicate Moved(w: Word, data: Word, k: nat) {
    |data| == |w| && forall i :: 0 <= i < |w| ==> data[i] == if i < k then false else w[i - k]
  }

  /** Bit i of the result is the bit of w that the k-th turn puts there. */
  ghost predicate Mirrored(w: Word, result: Word, k: nat, i: nat)
    requires |result| == |w| && k < |w| && |w| - 1 - k <= i < |w|
  {
    result[i] == w[2 * |w| - 2 - k - i]
  }

  /** After k turns: what was left of w's last k bits, shifted to the left edge, and behind it the k bits that
      preceded the last one, in reverse. */
  ghost predicate Collected(w: Word, result: Word, k: nat) {
    && |result| == |w| && k < |w|
    && (forall i :: 0 <= i < |w| - k ==> result[i] == w[i + k])
    && (forall i {:trigger Mirrored(w, result, k, i)} :: |w| - 1 - k <= i < |w| ==> Mirrored(w, result, k, i))
  }

  lemma ReversalStarts(w: Word)
    requires |w| > 1
    ensures Collected(w, w, 0) && Moved(w, Shr(w, 1), 1)
  {
  }

  /** One more turn: the result moves left and takes in the last bit of the word shifted right. */
  lemma TurnCollects(w: Word, data: Word, result: Word, k: nat)
    requires Collected(w, result, k) && Moved(w, data, k + 1) && k + 1 < |w|
    ensures Collected(w, Or(Shl(result, 1), And(data, Widen([true], |data|))), k + 1)
  {
    var last := And(data, Widen([true], |data|));
    assert forall i :: 0 <= i < |w| ==> last[i] == (i == |w| - 1 && data[i]);
    var r := Or(Shl(result, 1), last);
    forall i {:trigger Mirrored(w, r, k + 1, i)} | |w| - 1 - (k + 1) <= i < |w| ensures Mirrored(w, r, k + 1, i) {
      assert i < |w| - 1 ==> Mirrored(w, result, k, i + 1);
    }
  }

  /** Moving the result to the left edge leaves the reversed word. */
  lemma CollectedAll(w: Word, result: Word, k: nat)
    requires Collected(w, result, k) && forall i :: 0 <= i < |w| - 1 - k ==> !w[i]
    ensures Shl(result, |w| - 1 - k) == Reversed(w)
  {
    forall i | 0 <= i < |w| ensures Shl(result, |w| - 1 - k)[i] == Reversed(w)[i] {
      assert i <= k ==> Mirrored(w, result, k, i + |w| - 1 - k);
    }
  }

  lemma OnlyZerosLeft(w: Word, data: Word, k: nat)
    requires Moved(w, data, k) && true !in data && k <= |w|
    ensures forall i :: 0 <= i < |w| - k ==> !w[i]
  {
    forall i | 0 <= i < |w| - k ensures !w[i] {
      assert data[i + k] in data;
    }
  }

  // ---- the arithmetic of insert, on 64-bit words

  /** The last `count` bits, shifted left in the promoted word; bits may leave the word. */
  method BitMask(width: nat, count: nat, shift: nat) returns (mask: Word)
    requires count <= width && shift < width && (count == 0 ==> width < INT_WIDTH)
    ensures |mask| == width && forall i :: 0 <= i < width ==> mask[i] == (width - shift - count <= i < width - shift)
  {
    var promoted := if width < INT_WIDTH then INT_WIDTH else width;
    var low := Shr(Widen(Ones(width), promoted), width - count);
    mask := Narrow(Shl(low, shift), width);
  }

  /** len ones from bit `start` on. */
  method FieldMask(len: nat, start: nat) returns (mask: Word)
    requires 1 <= len && start + len <= MAX_WIDTH
    ensures |mask| == MAX_WIDTH && forall i :: 0 <= i < MAX_WIDTH ==> mask[i] == (start <= i < start + len)
  {
    var left := And(Shl(Ones(MAX_WIDTH), MAX_WIDTH - len), Ones(MAX_WIDTH));
    mask := Shr(left, start);
  }

  /** Shift a word so that its bit `from` comes to stand at bit `to`. */
  method Align(w: Word, from: nat, to: nat) returns (r: Word)
    requires |w| == MAX_WIDTH && from < MAX_WIDTH && to < MAX_WIDTH
    ensures |r| == MAX_WIDTH
    ensures forall i :: 0 <= i < MAX_WIDTH && 0 <= i + from - to < MAX_WIDTH ==> r[i] == w[i + from - to]
  {
    var shift := from - to;
    if shift > 0 {
      r := Shl(w, shift);
    } else {
      shift := to - from;
      r := Shr(w, shift);
    }
  }

  /** Widen both words to 64 bits, align the source to the target and merge them under the mask. */
  method Merge(to: Word, source: Word, targetStart: nat, len: nat, sourceStart: nat) returns (r: Word)
    requires IntegralWidth(|to|) && IntegralWidth(|source|) && 1 <= len
    requires targetStart + len <= |to| && sourceStart + len <= |source|
    ensures r == Inserted(to, source, targetStart, len, sourceStart)
  {
    var target, wide := Widen(to, MAX_WIDTH), Widen(source, MAX_WIDTH);
    var sourceStart64 := MAX_WIDTH - (|source| - sourceStart);
    var targetStart64 := MAX_WIDTH - (|to| - targetStart);
    var mask := FieldMask(len, targetStart64);
    var aligned := Align(wide, sourceStart64, targetStart64);
    r := Narrow(Or(And(target, Not(mask)), And(aligned, mask)), |to|);
    forall i | 0 <= i < |to| ensures r[i] == Inserted(to, source, targetStart, len, sourceStart)[i] {
      assert r[i]
        == if mask[i + (MAX_WIDTH - |to|)] then aligned[i + (MAX_WIDTH - |to|)] else target[i + (MAX_WIDTH - |to|)];
    }
  }

  // ---- laws of bit fields

  /** The number in the right-most len bits. */
  function LowValue(w: Word, len: nat): nat
    requires len <= |w|
  {
    Value(Narrow(w, len))
  }

  /** What is inserted from the right is extracted to the right: modulo 2 to the length, the value that went in
      comes out, whatever the widths. */
  lemma FieldRoundTrip(target: Word, source: Word, out: Word, start: nat, len: nat)
    requires start + len <= |target| && len <= |source| && len <= |out|
    ensures var stored := Inserted(target, source, start, len, |source| - len);
      var r := Inserted(out, stored, |out| - len, len, start);
      LowValue(r, len) == Value(source) % Pow2(len) && (out == Zero(|out|) ==> Value(r) == Value(source) % Pow2(len))
  {
    var stored := Inserted(target, source, start, len, |source| - len);
    var r := Inserted(out, stored, |out| - len, len, start);
    assert Narrow(r, len) == Narrow(source, len);
    NarrowIsModulo(source, len);
    if out == Zero(|out|) {
      assert r == Widen(Narrow(source, len), |out|);
      WidenKeepsValue(Narrow(source, len), |out|);
    }
  }

  /** Fields that do not overlap do not disturb each other. */
  lemma FieldsApart(w: Word, a: Word, aStart: nat, aLen: nat, aFrom: nat, b: Word, bStart: nat, bLen: nat, bFrom: nat)
    requires aStart + aLen <= |w| && aFrom + aLen <= |a| && bStart + bLen <= |w| && bFrom + bLen <= |b|
    requires aStart + aLen <= bStart || bStart + bLen <= aStart
    ensures Inserted(Inserted(w, a, aStart, aLen, aFrom), b, bStart, bLen, bFrom)
      == Inserted(Inserted(w, b, bStart, bLen, bFrom), a, aStart, aLen, aFrom)
  {
  }
}
