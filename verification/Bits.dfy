/** The bitwise operators of the source on unsigned integers, written on natural
    numbers one binary digit at a time, and what they compute where the source
    uses them: disjoint OR is addition, AND with a mask is a remainder. */
module Bits {
  import opened Powers

  function BitOr(a: nat, b: nat): nat
    decreases a
  {
    if a == 0 then b
    else if b == 0 then a
    else 2 * BitOr(a / 2, b / 2) + (if a % 2 == 1 || b % 2 == 1 then 1 else 0)
  }

  function BitAnd(a: nat, b: nat): nat
    decreases a
  {
    if a == 0 || b == 0 then 0
    else 2 * BitAnd(a / 2, b / 2) + (if a % 2 == 1 && b % 2 == 1 then 1 else 0)
  }

  function BitXor(a: nat, b: nat): nat
    decreases a + b
  {
    if a == 0 && b == 0 then 0 else 2 * BitXor(a / 2, b / 2) + (a + b) % 2
  }

  /** ORing a multiple of 2^k with a number below 2^k adds them, in either order. */
  lemma {:induction false} OrDisjoint(hi: nat, lo: nat, k: nat)
    requires lo < Pow2(k) && hi % Pow2(k) == 0
    ensures BitOr(hi, lo) == hi + lo == BitOr(lo, hi)
    decreases k
  {
    if k > 0 && hi > 0 && lo > 0 {
      var q := hi / Pow2(k);
      assert hi == 2 * (Pow2(k - 1) * q) by { MulAssoc(2, Pow2(k - 1), q); }
      PowPositive(2, k - 1);
      DivUnique(hi / 2, Pow2(k - 1), q, 0);
      OrDisjoint(hi / 2, lo / 2, k - 1);
    }
  }

  /** ORing a clear binary digit sets it. */
  lemma {:induction false} OrBit(a: nat, k: nat)
    requires Pow2(k) > 0 && a / Pow2(k) % 2 == 0
    ensures BitOr(a, Pow2(k)) == a + Pow2(k)
    decreases k
  {
    if k > 0 && a > 0 {
      PowPositive(2, k - 1);
      DivDiv(a, 2, Pow2(k - 1));
      OrBit(a / 2, k - 1);
    }
  }

  lemma {:induction false} AndAtMost(a: nat, b: nat)
    ensures BitAnd(a, b) <= a && BitAnd(a, b) <= b
    decreases a
  {
    if a > 0 && b > 0 {
      AndAtMost(a / 2, b / 2);
    }
  }

  lemma HalfRemainder(a: nat, m: nat)
    requires m > 0
    ensures a % (2 * m) == 2 * (a / 2 % m) + a % 2
  {
    var q, r := a / 2 / m, a / 2 % m;
    MulAssoc(2, m, q);
    DivUnique(a, 2 * m, q, 2 * r + a % 2);
  }

  /** A mask of k ones keeps the remainder modulo 2^k. */
  lemma {:induction false} AndMask(a: nat, k: nat)
    ensures Pow2(k) > 0
    ensures BitAnd(a, Pow2(k) - 1) == a % Pow2(k)
    decreases k
  {
    PowPositive(2, k);
    if k > 0 {
      AndMask(a / 2, k - 1);
      HalfRemainder(a, Pow2(k - 1));
      assert (Pow2(k) - 1) / 2 == Pow2(k - 1) - 1 && (Pow2(k) - 1) % 2 == 1;
    }
  }

  /** A single-bit mask tests that binary digit. */
  lemma {:induction false} AndBit(a: nat, k: nat)
    ensures Pow2(k) > 0
    ensures BitAnd(a, Pow2(k)) == if a / Pow2(k) % 2 == 1 then Pow2(k) else 0
    decreases k
  {
    PowPositive(2, k);
    if k == 0 {
      assert BitAnd(a / 2, 0) == 0;
    } else {
      AndBit(a / 2, k - 1);
      PowPositive(2, k - 1);
      DivDiv(a, 2, Pow2(k - 1));
    }
  }

  // ---- Exclusive or ----

  lemma XorParts(a: nat, b: nat)
    ensures BitXor(a, b) / 2 == BitXor(a / 2, b / 2) && BitXor(a, b) % 2 == (a + b) % 2
  {
  }

  lemma AndParts(a: nat, b: nat)
    ensures BitAnd(a, b) / 2 == BitAnd(a / 2, b / 2)
    ensures BitAnd(a, b) % 2 == if a % 2 == 1 && b % 2 == 1 then 1 else 0
  {
  }

  lemma {:induction false} XorZero(a: nat, b: nat)
    ensures BitXor(a, b) == BitXor(b, a) && BitXor(a, 0) == a && BitXor(0, a) == a
    decreases a + b
  {
    if a > 0 || b > 0 {
      XorZero(a / 2, b / 2);
    }
  }

  lemma Parity(x: nat, a: nat, b: nat, c: nat, y: nat)
    requires x % 2 == (a + b) % 2 && y % 2 == (b + c) % 2
    ensures (x + c) % 2 == (a + y) % 2 && (x + b) % 2 == a % 2
  {
  }

  /** Exclusive or is associative, and its own inverse. */
  lemma {:induction false} XorLaws(a: nat, b: nat, c: nat)
    ensures BitXor(BitXor(a, b), c) == BitXor(a, BitXor(b, c)) && BitXor(BitXor(a, b), b) == a
    decreases a + b + c
  {
    hide BitXor;
    XorZero(0, 0);
    if a > 0 || b > 0 || c > 0 {
      var ab, bc := BitXor(a, b), BitXor(b, c);
      XorParts(a, b);
      XorParts(b, c);
      XorLaws(a / 2, b / 2, c / 2);
      XorParts(ab, c);
      XorParts(a, bc);
      XorParts(ab, b);
      Parity(ab, a, b, c, bc);
    }
  }

  /** Exclusive or needs no more digits than its operands. */
  lemma {:induction false} XorBound(a: nat, b: nat, k: nat)
    requires a < Pow2(k) && b < Pow2(k)
    ensures BitXor(a, b) < Pow2(k)
  {
    if k > 0 {
      XorBound(a / 2, b / 2, k - 1);
    }
  }

  /** Masking is idempotent ... */
  lemma {:induction false} MaskTwice(x: nat, m: nat)
    ensures BitAnd(BitAnd(x, m), m) == BitAnd(x, m)
    decreases x
  {
    if x > 0 && m > 0 {
      AndParts(x, m);
      MaskTwice(x / 2, m / 2);
      AndParts(BitAnd(x, m), m);
    }
  }

  lemma MaskParity(c: nat, x: nat, m: nat, cx: nat, xm: nat)
    requires cx % 2 == (c + x) % 2 && c % 2 <= m % 2 && xm % 2 == if x % 2 == 1 && m % 2 == 1 then 1 else 0
    ensures (if cx % 2 == 1 && m % 2 == 1 then 1 else 0) == (c + xm) % 2
  {
  }

  /** ... and commutes with exclusive or. */
  lemma {:induction false} MaskXor(c: nat, x: nat, m: nat)
    requires BitAnd(c, m) == c
    ensures BitAnd(BitXor(c, x), m) == BitXor(c, BitAnd(x, m))
    decreases c + x
  {
    XorZero(0, 0);
    hide BitXor, BitAnd;
    var cx, xm := BitXor(c, x), BitAnd(x, m);
    AndParts(c, m);
    AndParts(x, m);
    XorParts(c, x);
    AndParts(cx, m);
    XorParts(c, xm);
    MaskParity(c, x, m, cx, xm);
    if c > 0 || x > 0 {
      MaskXor(c / 2, x / 2, m / 2);
    } else {
      AndAtMost(0, m);
    }
  }
}
