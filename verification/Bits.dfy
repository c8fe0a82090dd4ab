/** Python's unbounded bitmasks, on natural numbers. */
module Bits {

  function Pow2(i: nat): (r: nat)
    ensures r > 0
  {
    if i == 0 then 1 else 2 * Pow2(i - 1)
  }

  predicate TestBit(n: nat, i: nat)
    decreases i
  {
    if i == 0 then n % 2 == 1 else TestBit(n / 2, i - 1)
  }

  /** `a | b` */
  function BitOr(a: nat, b: nat): nat
    decreases a
  {
    if a == 0 then b
    else (if a % 2 == 1 || b % 2 == 1 then 1 else 0) + 2 * BitOr(a / 2, b / 2)
  }

  /** `a & b` */
  function BitAnd(a: nat, b: nat): nat
    decreases a
  {
    if a == 0 then 0
    else (if a % 2 == 1 && b % 2 == 1 then 1 else 0) + 2 * BitAnd(a / 2, b / 2)
  }

  lemma {:induction false} NoBits(i: nat)
    ensures !TestBit(0, i)
  {
    if i > 0 { NoBits(i - 1); }
  }

  lemma {:induction false} BitOrTests(a: nat, b: nat, i: nat)
    ensures TestBit(BitOr(a, b), i) <==> TestBit(a, i) || TestBit(b, i)
    decreases i
  {
    if a == 0 {
      NoBits(i);
    } else if i > 0 {
      BitOrTests(a / 2, b / 2, i - 1);
      assert BitOr(a, b) / 2 == BitOr(a / 2, b / 2);
    }
  }

  lemma {:induction false} BitAndTests(a: nat, b: nat, i: nat)
    ensures TestBit(BitAnd(a, b), i) <==> TestBit(a, i) && TestBit(b, i)
    decreases i
  {
    if a == 0 {
      NoBits(i);
    } else if i > 0 {
      BitAndTests(a / 2, b / 2, i - 1);
      assert BitAnd(a, b) / 2 == BitAnd(a / 2, b / 2);
    }
  }

  lemma {:induction false} Pow2Tests(i: nat, j: nat)
    ensures TestBit(Pow2(i), j) <==> i == j
    decreases j
  {
    if i == 0 {
      if j > 0 { NoBits(j - 1); }
    } else if j > 0 {
      assert Pow2(i) / 2 == Pow2(i - 1);
      Pow2Tests(i - 1, j - 1);
    }
  }

  lemma {:induction false} NonzeroHasBit(n: nat) returns (i: nat)
    requires n > 0
    ensures TestBit(n, i)
  {
    if n % 2 == 1 {
      i := 0;
    } else {
      var k := NonzeroHasBit(n / 2);
      i := k + 1;
    }
  }

  /** Masking with one bit tests that bit: `bool(a & (1 << i))`. */
  lemma MaskTestsBit(a: nat, i: nat)
    ensures BitAnd(a, Pow2(i)) != 0 <==> TestBit(a, i)
  {
    if BitAnd(a, Pow2(i)) != 0 {
      var k := NonzeroHasBit(BitAnd(a, Pow2(i)));
      BitAndTests(a, Pow2(i), k);
      Pow2Tests(i, k);
    }
    if TestBit(a, i) {
      Pow2Tests(i, i);
      BitAndTests(a, Pow2(i), i);
      NoBits(i);
    }
  }
}
