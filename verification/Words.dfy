/** Unsigned machine words as their bits, the left-most (most significant) bit first, with C's operators. */
module Words {
  import opened Arithmetic

  type Word = seq<bool>

  function Zero(n: nat): (w: Word)
    ensures |w| == n && forall i :: 0 <= i < n ==> !w[i]
  {
    seq(n, _ => false)
  }

  function Ones(n: nat): (w: Word)
    ensures |w| == n && forall i :: 0 <= i < n ==> w[i]
  {
    seq(n, _ => true)
  }

  function Not(a: Word): (w: Word)
    ensures |w| == |a| && forall i :: 0 <= i < |a| ==> w[i] == !a[i]
  {
    seq(|a|, i requires 0 <= i < |a| => !a[i])
  }

  function And(a: Word, b: Word): (w: Word)
    requires |a| == |b|
    ensures |w| == |a| && forall i :: 0 <= i < |a| ==> w[i] == (a[i] && b[i])
  {
    seq(|a|, i requires 0 <= i < |a| => a[i] && b[i])
  }

  function Or(a: Word, b: Word): (w: Word)
    requires |a| == |b|
    ensures |w| == |a| && forall i :: 0 <= i < |a| ==> w[i] == (a[i] || b[i])
  {
    seq(|a|, i requires 0 <= i < |a| => a[i] || b[i])
  }

  /** a << k; as in C, the amount must be smaller than the width. */
  function Shl(a: Word, k: nat): (w: Word)
    requires k < |a|
    ensures |w| == |a|
    ensures forall i :: 0 <= i < |a| ==> w[i] == if i + k < |a| then a[i + k] else false
  {
    a[k..] + Zero(k)
  }

  /** a >> k. */
  function Shr(a: Word, k: nat): (w: Word)
    requires k < |a|
    ensures |w| == |a|
    ensures forall i :: 0 <= i < |a| ==> w[i] == if i < k then false else a[i - k]
  {
    Zero(k) + a[..|a| - k]
  }

  /** Conversion to a wider word. */
  function Widen(a: Word, n: nat): (w: Word)
    requires |a| <= n
    ensures |w| == n
    ensures forall i :: 0 <= i < n ==> w[i] == if i < n - |a| then false else a[i - (n - |a|)]
  {
    Zero(n - |a|) + a
  }

  /** Conversion to a narrower word keeps the right-most bits. */
  function Narrow(a: Word, n: nat): (w: Word)
    requires n <= |a|
    ensures |w| == n && forall i :: 0 <= i < n ==> w[i] == a[i + (|a| - n)]
  {
    a[|a| - n..]
  }

  // ---- the numbers that words stand for

  function Pow2(n: nat): (p: nat)
    ensures p > 0
  {
    if n == 0 then 1 else 2 * Pow2(n - 1)
  }

  function Value(a: Word): (v: nat)
    ensures v < Pow2(|a|)
  {
    if a == [] then 0 else 2 * Value(a[..|a| - 1]) + if a[|a| - 1] then 1 else 0
  }

  lemma DoubleProduct(x: nat, p: nat, q: nat)
    requires q == 2 * p
    ensures x * q == 2 * (x * p)
  {
  }

  lemma {:induction false} ValueOfConcat(a: Word, b: Word)
    ensures Value(a + b) == Value(a) * Pow2(|b|) + Value(b)
  {
    if b == [] {
      assert a + b == a;
    } else {
      var c, last := b[..|b| - 1], b[|b| - 1];
      ValueOfConcat(a, c);
      DoubleProduct(Value(a), Pow2(|c|), Pow2(|b|));
      ValueOfNext(c, b, last);
      ValueOfNext(a + c, a + b, last);
    }
  }

  lemma ValueOfNext(a: Word, b: Word, last: bool)
    requires b == a + [last]
    ensures Value(b) == 2 * Value(a) + if last then 1 else 0
  {
    assert b[..|b| - 1] == a;
  }

  lemma {:induction false} ValueOfZero(n: nat)
    ensures Value(Zero(n)) == 0
  {
    if n > 0 {
      assert Zero(n)[..n - 1] == Zero(n - 1);
      ValueOfZero(n - 1);
    }
  }

  /** A left shift multiplies, and loses what leaves the word. */
  lemma ShlMultiplies(a: Word, k: nat)
    requires k < |a|
    ensures Value(Shl(a, k)) == Value(a) * Pow2(k) % Pow2(|a|)
  {
    var hi, lo := a[..k], a[k..];
    assert a == hi + lo;
    ValueOfConcat(hi, lo);
    PowerOfSum(|lo|, k);
    ShiftedProduct(Value(a), Value(hi), Pow2(|lo|), Value(lo), Pow2(k), Pow2(|a|));
    ShlValue(a, k);
  }

  lemma ShlValue(a: Word, k: nat)
    requires k < |a|
    ensures Value(Shl(a, k)) == Value(a[k..]) * Pow2(k)
  {
    ValueOfConcat(a[k..], Zero(k));
    ValueOfZero(k);
  }

  lemma ShiftedProduct(v: nat, h: nat, p: nat, l: nat, q: nat, n: nat)
    requires v == h * p + l && l < p && q > 0 && n == p * q
    ensures n > 0 && v * q % n == l * q
  {
    ProductBound(l, p, q);
    assert v * q == h * n + l * q by { Distribute(h, p, l, q); }
    DivisionUnique(v * q, n, h, l * q);
  }

  lemma Distribute(h: nat, p: nat, l: nat, q: nat)
    ensures (h * p + l) * q == h * (p * q) + l * q
  {
    assert h * p * q == h * (p * q);
  }

  lemma ZeroTimes(p: nat)
    ensures 0 * p == 0
  {
  }

  /** A right shift divides. */
  lemma ShrDivides(a: Word, k: nat)
    requires k < |a|
    ensures Value(Shr(a, k)) == Value(a) / Pow2(k)
  {
    var hi, lo := a[..|a| - k], a[|a| - k..];
    assert a == hi + lo;
    ValueOfConcat(hi, lo);
    ValueOfConcat(Zero(k), hi);
    ValueOfZero(k);
    ZeroTimes(Pow2(|hi|));
    DivisionUnique(Value(a), Pow2(k), Value(hi), Value(lo));
  }

  /** Widening keeps the number, narrowing keeps it modulo the width. */
  lemma NarrowIsModulo(a: Word, n: nat)
    requires n <= |a|
    ensures Value(Narrow(a, n)) == Value(a) % Pow2(n)
  {
    var hi, lo := a[..|a| - n], a[|a| - n..];
    assert a == hi + lo;
    ValueOfConcat(hi, lo);
    DivisionUnique(Value(a), Pow2(n), Value(hi), Value(lo));
  }

  lemma WidenKeepsValue(a: Word, n: nat)
    requires |a| <= n
    ensures Value(Widen(a, n)) == Value(a)
  {
    ValueOfConcat(Zero(n - |a|), a);
    ValueOfZero(n - |a|);
    ZeroTimes(Pow2(|a|));
  }

  lemma {:induction false} PowerOfSum(m: nat, n: nat)
    ensures Pow2(m + n) == Pow2(m) * Pow2(n)
  {
    if n > 0 {
      PowerOfSum(m, n - 1);
      DoubleProduct(Pow2(m), Pow2(n - 1), Pow2(n));
    }
  }

  lemma ProductBound(x: nat, bound: nat, f: nat)
    requires x < bound && f > 0
    ensures x * f < bound * f
  {
    assert (bound - x) * f >= f by { ProductSign(bound - x, f); }
  }
}
