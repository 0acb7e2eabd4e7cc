/** The 256-bit unsigned integer of the difficulty code: eight 32-bit limbs changed
    in place by carry loops, each operator proved to be integer arithmetic modulo
    2^256. */
module Uint256 {
  import opened Powers
  import opened Bits
  import opened Limbs

  const WIDTH: nat := 8

  /** 2^256. */
  ghost const MODULUS: nat := Pow(BASE, WIDTH)

  lemma ModulusIsPow2()
    ensures MODULUS == Pow2(256) > 0
  {
    BasePower(WIDTH);
  }

  /** What remains of d * BASE^p once digits at or above 2^256 are dropped ... */
  ghost function Kept(d: nat, p: nat): nat {
    if p < WIDTH then d * Pow(BASE, p) else 0
  }

  /** ... and what multiple of 2^256 was dropped. */
  ghost function Dropped(d: nat, p: nat): nat {
    if p < WIDTH then 0 else d * Pow(BASE, p - WIDTH)
  }

  lemma KeptDropped(d: nat, p: nat)
    ensures d * Pow(BASE, p) == Kept(d, p) + MODULUS * Dropped(d, p)
  {
    if p >= WIDTH {
      PowAdd(BASE, WIDTH, p - WIDTH);
      MulAssoc(d, MODULUS, Pow(BASE, p - WIDTH));
      MulAssoc(MODULUS, d, Pow(BASE, p - WIDTH));
      assert d * MODULUS == MODULUS * d;
    }
  }

  lemma ModOf(v: int, r: int, q: int)
    requires v == r + MODULUS * q && 0 <= r < MODULUS
    ensures v % MODULUS == r
  {
    DivUnique(v, MODULUS, q, r);
  }

  /** The lower 128 bits. */
  ghost function LowHalf(x: nat): nat {
    PowPositive(2, 128);
    x % Pow2(128)
  }

  /** A square is a multiple of 2^2n if and only if its root is one of 2^n. */
  lemma {:induction false} SquareVanishes(x: nat, n: nat)
    ensures Pow2(n) > 0 && Pow2(2 * n) > 0
    ensures x * x % Pow2(2 * n) == 0 <==> x % Pow2(n) == 0
  {
    PowPositive(2, n);
    PowPositive(2, 2 * n);
    if n > 0 {
      var m, mm := Pow2(n - 1), Pow2(2 * (n - 1));
      var y, odd := x / 2, x % 2;
      SquareVanishes(y, n - 1);
      assert Pow2(n) == 2 * m;
      QuarterOf(n);
      if odd == 0 {
        assert x * x == 4 * (y * y);
        ScaledDivides(4, mm, y * y);
        ScaledDivides(2, m, y);
      } else {
        assert x * x == 2 * (2 * y * y + 2 * y) + 1;
        OddIndivisible(x * x, 2 * y * y + 2 * y, 2 * mm);
        OddIndivisible(x, y, m);
      }
    }
  }

  lemma QuarterOf(n: nat)
    requires n > 0
    ensures Pow2(2 * n) == 4 * Pow2(2 * (n - 1))
  {
    PowNext(2, 2 * n - 1);
    PowNext(2, 2 * n - 2);
  }

  lemma ScaledDivides(k: nat, m: nat, y: nat)
    requires k > 0 && m > 0
    ensures k * m > 0 && (k * y % (k * m) == 0 <==> y % m == 0)
  {
    MulGrows(k, m);
    MulDistribute(k, m * (y / m), y % m);
    MulAssoc(k, m, y / m);
    MulLess(k, y % m, m);
    DivUnique(k * y, k * m, y / m, k * (y % m));
  }

  lemma OddIndivisible(v: nat, h: nat, m: nat)
    requires v == 2 * h + 1 && m > 0
    ensures v % (2 * m) != 0
  {
    var q := v / (2 * m);
    MulAssoc(2, m, q);
    assert v == 2 * (m * q) + v % (2 * m);
  }

  /** One digit of a schoolbook addition: s is the digit sum with carry. */
  lemma CarryStep(z: int, x: int, y: int, carry: int, p: int, dx: int, dy: int, n: int)
    requires z + carry * p == x + y && n == carry + dx + dy
    ensures z + n % BASE * p + n / BASE * (BASE * p) == (x + dx * p) + (y + dy * p)
  {
    DigitCarry(n, p);
    MulDistribute(p, carry, dx);
    MulDistribute(p, carry + dx, dy);
  }

  lemma DigitCarry(n: int, p: int)
    ensures n % BASE * p + n / BASE * (BASE * p) == n * p
  {
    var q, r := n / BASE, n % BASE;
    MulAssoc(q, BASE, p);
    MulDistribute(p, r, q * BASE);
  }

  /** The two's complement of every limb complements the value. */
  lemma {:induction false} ComplementVal(x: seq<Limb>, z: seq<Limb>)
    requires |x| == |z| && forall i :: 0 <= i < |x| ==> z[i] == BASE - 1 - x[i]
    ensures Val(z) == Pow(BASE, |x|) - 1 - Val(x)
  {
    if |x| > 0 {
      ComplementVal(x[1..], z[1..]);
    }
  }

  /** Incrementing limb i below which every limb rolled over to zero. */
  lemma RippleMod(x: seq<Limb>, z: seq<Limb>, i: nat, m: nat)
    requires |x| == |z| && i < |x| && m == Pow(BASE, |x|)
    requires Val(x[..i]) == Pow(BASE, i) - 1 && forall j :: 0 <= j < i ==> z[..i][j] == 0
    requires z[i] == (x[i] + 1) % BASE && z[i + 1..] == x[i + 1..]
    requires z[i] != 0 || i == |x| - 1
    ensures m > 0 && Val(z) == (Val(x) + 1) % m
  {
    hide Val, Pow;
    BasePower(|x|);
    ValZero(z[..i]);
    RippleSum(x, z, i);
    ValBound(z);
    WrapOnce(Val(x) + 1, Val(z), m, z[i] == 0);
  }

  lemma WrapOnce(v: int, r: int, m: int, wrapped: bool)
    requires 0 <= r < m && v == r + if wrapped then m else 0
    ensures v % m == r
  {
    DivUnique(v, m, if wrapped then 1 else 0, r);
  }

  lemma RippleSum(x: seq<Limb>, z: seq<Limb>, i: nat)
    requires |x| == |z| && i < |x|
    requires Val(x[..i]) == Pow(BASE, i) - 1 && Val(z[..i]) == 0
    requires z[i] == (x[i] + 1) % BASE && z[i + 1..] == x[i + 1..]
    ensures Val(x) + 1 == Val(z) + if z[i] == 0 then Pow(BASE, i + 1) else 0
  {
    ValSplit(x, i + 1);
    ValSplit(z, i + 1);
    ValSnoc(x, i);
    ValSnoc(z, i);
    RippleDigits(x[i], z[i], Pow(BASE, i));
  }

  lemma RippleDigits(x: Limb, z: Limb, p: nat)
    requires z == (x + 1) % BASE
    ensures z != 0 ==> z * p == x * p + p
    ensures z == 0 ==> x * p + p == BASE * p && z * p == 0
  {
    MulDistribute(p, x, 1);
  }

  lemma RolledOver(x: seq<Limb>, i: nat)
    requires i < |x| && Val(x[..i]) == Pow(BASE, i) - 1 && (x[i] + 1) % BASE == 0
    ensures Val(x[..i + 1]) == Pow(BASE, i + 1) - 1
  {
    ValSnoc(x, i);
    RippleDigits(x[i], 0, Pow(BASE, i));
  }

  lemma NegateAdd(x: nat, y: nat, z: nat)
    requires x < MODULUS && y < MODULUS && z == if y == 0 then 0 else MODULUS - y
    ensures (x + z) % MODULUS == (x - y) % MODULUS
  {
    if y != 0 && x >= y {
      DivUnique(x - y, MODULUS, 0, x - y);
      DivUnique(x + z, MODULUS, 1, x - y);
    } else if y != 0 {
      DivUnique(x - y, MODULUS, -1, MODULUS + x - y);
      DivUnique(x + z, MODULUS, 0, MODULUS + x - y);
    }
  }

  /** One digit of a schoolbook product row. */
  lemma RowStep(v: int, w: int, carry: int, p: int, d: int, t: int, n: int)
    requires v + carry * p == w && n == carry + d + t
    ensures v + (n % BASE - d) * p + n / BASE * (BASE * p) == w + t * p
  {
    DigitCarry(n, p);
    assert n * p == carry * p + d * p + t * p by {
      MulDistribute(p, carry, d);
      MulDistribute(p, carry + d, t);
    }
    var e := 0 - d;
    MulDistribute(p, n % BASE, e);
  }

  /** One digit of a product by a single limb. */
  lemma ScaleStep(x: seq<Limb>, i: nat, z: nat, carry: nat, b32: Limb, n: nat)
    requires i < |x| && z + carry * Pow(BASE, i) == Val(x[..i]) * b32
    requires n == carry + b32 * x[i]
    ensures z + n % BASE * Pow(BASE, i) + n / BASE * Pow(BASE, i + 1) == Val(x[..i + 1]) * b32
  {
    ValSnoc(x, i);
    ScaleSum(Val(x[..i]), x[i], Pow(BASE, i), z, carry, b32, n);
  }

  lemma ScaleSum(vx: int, d: int, p: int, z: int, carry: int, b: int, n: int)
    requires z + carry * p == vx * b && n == carry + b * d
    ensures z + n % BASE * p + n / BASE * (BASE * p) == (vx + d * p) * b
  {
    DigitCarry(n, p);
    MulDistribute(p, carry, b * d);
    MulAssoc(b, d, p);
    MulDistribute(b, vx, d * p);
  }

  lemma RowDigit(s: seq<Limb>, y: seq<Limb>, i: nat, j: nat, aj: int, w: int, carry: int, n: nat)
    requires i < |y| && i + j < |s|
    requires Val(s) + carry * Pow(BASE, i + j) == w + aj * Pow(BASE, j) * Val(y[..i])
    requires n == carry + s[i + j] + aj * y[i]
    ensures Val(s[i + j := n % BASE]) + n / BASE * Pow(BASE, i + j + 1) == w + aj * Pow(BASE, j) * Val(y[..i + 1])
  {
    var p: int, pi: int, pj: int, d: int := Pow(BASE, i + j), Pow(BASE, i), Pow(BASE, j), y[i];
    ValUpdate(s, i + j, n % BASE);
    ValSnoc(y, i);
    PowAdd(BASE, j, i);
    RowStep(Val(s), w + aj * pj * Val(y[..i]), carry, p, s[i + j], aj * d, n);
    hide Pow, Val;
    ProductSwap(aj, pj, pi, d);
    RowTail(aj * pj, Val(y[..i]), Val(y[..i + 1]), d, pi);
  }

  lemma RowTail(k: int, v: int, v': int, d: int, p: int)
    requires v' == v + d * p
    ensures k * v' == k * v + k * (p * d)
  {
    MulDistribute(k, v, d * p);
  }

  lemma ProductBelow(x: int, y: int)
    requires 0 <= x < BASE && 0 <= y < BASE
    ensures 0 <= x * y <= (BASE - 1) * (BASE - 1)
  {
    MulNonneg(x, y);
    var top: int := BASE - 1;
    MulNonneg(x, top - y);
    MulDistribute(x, y, top - y);
    MulNonneg(top - x, top);
    MulDistribute(top, x, top - x);
  }

  /** Adding row j of a product, keeping only the limbs that fit. */
  lemma RowValue(x: seq<Limb>, y: seq<Limb>, j: nat, w: int, v: int, carry: int, q: int, m: nat)
    requires |x| == |y| && j < |x| && m == Pow(BASE, |x|)
    requires Val(x[..j]) * Val(y) == w + m * q
    requires v + carry * m == w + x[j] * Pow(BASE, j) * Val(y[..|x| - j])
    ensures Val(x[..j + 1]) * Val(y) == v + m * (q + carry + x[j] * Val(y[|x| - j..]))
  {
    var k := |x| - j;
    ValSnoc(x, j);
    ValSplit(y, k);
    PowAdd(BASE, j, k);
    var d: int, p: int, r: int, hi: int := x[j], Pow(BASE, j), Pow(BASE, k), Val(y[k..]);
    ProductSwap(d, p, r, hi);
    RowSum(Val(x[..j]), Val(x[..j + 1]), d * p, Val(y), Val(y[..k]), r * hi, d * hi, w, v, carry, q, m);
  }

  lemma RowSum(vx: int, vx': int, dp: int, vy: int, lo: int, top: int, e: int, w: int, v: int, carry: int, q: int,
               m: int)
    requires vx' == vx + dp && vy == lo + top
    requires vx * vy == w + m * q && v + carry * m == w + dp * lo && dp * top == m * e
    ensures vx' * vy == v + m * (q + carry + e)
  {
    MulDistribute(vy, vx, dp);
    MulDistribute(dp, lo, top);
    MulDistribute(m, q + carry, e);
    MulDistribute(m, q, carry);
  }

  lemma ProductSwap(d: int, p: int, r: int, h: int)
    ensures d * p * (r * h) == p * r * (d * h)
  {
    MulAssoc(d, p, r * h);
    MulAssoc(p, r, h);
    MulAssoc(d, p * r, h);
    assert d * (p * r) == (p * r) * d;
    MulAssoc(p * r, d, h);
  }

  /** What the limb x, shifted left by s and placed at limb `at`, adds to a number ... */
  ghost function PlacedLeft(x: Limb, at: nat, s: nat): int
    requires s < 32
  {
    PowPositive(2, 32 - s);
    Kept(x / Pow2(32 - s), at + 1) + Kept(x * Pow2(s) % BASE, at)
  }

  /** ... and the multiple of 2^256 it loses. */
  ghost function DroppedLeft(x: Limb, at: nat, s: nat): int
    requires s < 32
  {
    PowPositive(2, 32 - s);
    Dropped(x / Pow2(32 - s), at + 1) + Dropped(x * Pow2(s) % BASE, at)
  }

  lemma ShiftLeftDigit(x: Limb, i: nat, k: nat, s: nat)
    requires s < 32
    ensures x * Pow(BASE, i) * Pow2(32 * k + s) == PlacedLeft(x, i + k, s) + MODULUS * DroppedLeft(x, i + k, s)
  {
    ShiftSplit(x, s);
    var hi, lo := x / Pow2(32 - s), x * Pow2(s) % BASE;
    ShiftWeight(i, k, s);
    KeptDropped(hi, i + k + 1);
    KeptDropped(lo, i + k);
    SpreadDigit(x, Pow2(s), hi, lo, Pow(BASE, i), Pow2(32 * k + s), Pow(BASE, i + k));
    MulDistribute(MODULUS, Dropped(hi, i + k + 1), Dropped(lo, i + k));
  }

  lemma SpreadDigit(x: int, p: int, hi: int, lo: int, bi: int, sh: int, bik: int)
    requires x * p == hi * BASE + lo && bi * sh == p * bik
    ensures x * bi * sh == hi * (BASE * bik) + lo * bik
  {
    MulAssoc(x, bi, sh);
    MulAssoc(x, p, bik);
    MulDistribute(bik, hi * BASE, lo);
    MulAssoc(hi, BASE, bik);
  }

  lemma ShiftWeight(i: nat, k: nat, s: nat)
    ensures Pow(BASE, i) * Pow2(32 * k + s) == Pow2(s) * Pow(BASE, i + k)
    ensures Pow2(32 * k + s) == Pow(BASE, k) * Pow2(s)
  {
    BasePower(k);
    PowAdd(2, 32 * k, s);
    PowAdd(BASE, i, k);
    MulAssoc(Pow(BASE, i), Pow(BASE, k), Pow2(s));
  }

  /** Reading limb i of the operand of a left shift. */
  lemma ShiftLeftStep(x: seq<Limb>, i: nat, k: nat, s: nat, v: int, v': int, q: int) returns (q': int)
    requires i < |x| && s < 32 && Val(x[..i]) * Pow2(32 * k + s) == v + MODULUS * q
    requires v' == v + PlacedLeft(x[i], i + k, s)
    ensures Val(x[..i + 1]) * Pow2(32 * k + s) == v' + MODULUS * q'
  {
    var drop := DroppedLeft(x[i], i + k, s);
    ShiftLeftDigit(x[i], i, k, s);
    ValSnoc(x, i);
    AddProducts(Val(x[..i]), x[i] * Pow(BASE, i), Val(x[..i + 1]), Pow2(32 * k + s));
    MulDistribute(MODULUS, q, drop);
    q' := q + drop;
  }

  lemma AddProducts(a: int, b: int, c: int, p: int)
    requires c == a + b
    ensures c * p == a * p + b * p
  {
  }

  /** What the limb x, shifted right by s and placed at limb `at`, adds to a number. */
  ghost function PlacedRight(x: Limb, at: int, s: nat): int
    requires s < 32
  {
    PowPositive(2, s);
    (if at >= 1 then x * Pow2(32 - s) % BASE * Pow(BASE, at - 1) else 0)
    + (if at >= 0 then x / Pow2(s) * Pow(BASE, at) else 0)
  }

  /** How a right shift grows as one more limb of the operand is read. */
  lemma ShiftRightStep(x: seq<Limb>, i: nat, k: nat, s: nat)
    requires i < |x| && s < 32
    ensures Pow2(32 * k + s) > 0
    ensures Val(x[..i + 1]) / Pow2(32 * k + s) == Val(x[..i]) / Pow2(32 * k + s) + PlacedRight(x[i], i - k, s)
  {
    PowPositive(2, 32 * k + s);
    if i < k {
      BelowShift(x, i, k, s);
      BelowShift(x, i + 1, k, s);
    } else if i == k {
      BelowShift(x, i, k, s);
      ShiftRightFirst(x, i, s);
    } else {
      ShiftRightTail(x, i, k, s);
    }
  }

  lemma WholeLimb(x: Limb)
    ensures x * Pow2(32) % BASE == 0
  {
    Base32();
    DivUnique(x * BASE, BASE, x, 0);
  }

  lemma DivSmall(v: nat, p: nat)
    requires v < p
    ensures v / p == 0
  {
    DivUnique(v, p, 0, v);
  }

  lemma BelowShift(x: seq<Limb>, i: nat, k: nat, s: nat)
    requires i <= k && i <= |x|
    ensures Pow2(32 * k + s) > 0 && Val(x[..i]) / Pow2(32 * k + s) == 0
  {
    ValBound(x[..i]);
    PowMonotoneExp(BASE, i, k);
    BasePower(k);
    PowMonotoneExp(2, 32 * k, 32 * k + s);
    DivSmall(Val(x[..i]), Pow2(32 * k + s));
  }

  lemma ShiftRightFirst(x: seq<Limb>, k: nat, s: nat)
    requires k < |x|
    ensures Pow2(32 * k + s) > 0 && Pow2(s) > 0
    ensures Val(x[..k + 1]) / Pow2(32 * k + s) == x[k] / Pow2(s)
  {
    PowPositive(2, 32 * k + s);
    PowPositive(2, s);
    ShiftWeight(0, k, s);
    TopLimb(x, k);
    DivDiv(Val(x[..k + 1]), Pow(BASE, k), Pow2(s));
  }

  lemma TopLimb(x: seq<Limb>, k: nat)
    requires k < |x|
    ensures Pow(BASE, k) > 0 && Val(x[..k + 1]) / Pow(BASE, k) == x[k]
  {
    BasePower(k);
    ValSnoc(x, k);
    ValBound(x[..k]);
    QuotientOf(Val(x[..k + 1]), x[k], Pow(BASE, k), Val(x[..k]));
  }

  lemma QuotientOf(v: int, q: int, d: int, r: int)
    requires 0 <= r < d && v == r + q * d
    ensures v / d == q
  {
    DivUnique(v, d, q, r);
  }

  lemma ShiftRightTail(x: seq<Limb>, i: nat, k: nat, s: nat)
    requires k < i < |x| && s < 32
    ensures Pow2(32 * k + s) > 0 && Pow2(s) > 0
    ensures Val(x[..i + 1]) / Pow2(32 * k + s)
         == Val(x[..i]) / Pow2(32 * k + s)
            + (x[i] * Pow2(32 - s) % BASE * Pow(BASE, i - k - 1)
               + x[i] / Pow2(s) * Pow(BASE, i - k))
  {
    PowPositive(2, 32 * k + s);
    PowPositive(2, s);
    ValSnoc(x, i);
    ShiftSplit(x[i], 32 - s);
    var n := i - k - 1;
    var hi: int, lo: int, b: int, p: int := x[i] / Pow2(s), x[i] * Pow2(32 - s) % BASE, Pow(BASE, n), Pow2(32 * k + s);
    assert p * (Pow2(32 - s) * b) == Pow(BASE, i) by {
      BasePower(i);
      BasePower(n);
      PowAdd(2, 32 - s, 32 * n);
      PowAdd(2, 32 * k + s, 32 - s + 32 * n);
      assert 32 * k + s + (32 - s + 32 * n) == 32 * i;
    }
    LowShift(x[i], Pow2(32 - s), hi, lo, b, p, Pow(BASE, i));
    DivAddMultiple(Val(x[..i]), Val(x[..i + 1]), p, lo * b + hi * (BASE * b));
  }

  lemma DivAddMultiple(y: int, y': int, p: int, g: int)
    requires p > 0 && y' == y + p * g
    ensures y' / p == y / p + g
  {
    MulDistribute(p, y / p, g);
    DivUnique(y', p, y / p + g, y % p);
  }

  lemma LowShift(x: int, r: int, hi: int, lo: int, b: int, p: int, w: int)
    requires x * r == hi * BASE + lo && p * (r * b) == w
    ensures x * w == p * (lo * b + hi * (BASE * b))
  {
    MulAssoc(x, r, b);
    MulDistribute(b, hi * BASE, lo);
    MulAssoc(hi, BASE, b);
    var g := lo * b + hi * (BASE * b);
    assert x * (r * b) == g;
    MulAssoc(x, p, r * b);
    MulAssoc(p, x, r * b);
  }

  /** The value of a number whose top nonzero limb is at pos. */
  lemma LeadingLimb(x: seq<Limb>, pos: nat, b: nat)
    requires pos < |x| && (forall j :: pos < j < |x| ==> x[j] == 0)
    requires Pow2(b) <= x[pos] < Pow2(b + 1)
    ensures Pow2(32 * pos + b) <= Val(x) < Pow2(32 * pos + b + 1)
  {
    LeadingValue(x, pos);
    ValBound(x[..pos]);
    BasePower(pos);
    PowAdd(2, 32 * pos, b);
    PowAdd(2, 32 * pos, b + 1);
    LeadingBound(Val(x[..pos]), x[pos], Pow(BASE, pos), Pow2(b), Pow2(b + 1));
  }

  lemma LeadingValue(x: seq<Limb>, pos: nat)
    requires pos < |x| && (forall j :: pos < j < |x| ==> x[j] == 0)
    ensures Val(x) == Val(x[..pos]) + x[pos] * Pow(BASE, pos)
  {
    ValTrim(x, pos + 1);
    ValSnoc(x, pos);
  }

  lemma LeadingBound(lo: int, d: int, p: int, a: int, c: int)
    requires 0 <= lo < p && a <= d < c
    ensures p * a <= lo + d * p < p * c
  {
    MulNonneg(p, d - a);
    MulDistribute(p, a, d - a);
    MulNonneg(p, c - 1 - d);
    MulDistribute(p, d, c - 1 - d);
    MulDistribute(p, c - 1, 1);
  }

  /** A limb's binary digit b, when no higher digit is set. */
  lemma TopBit(x: Limb, b: nat)
    requires x < Pow2(b + 1)
    ensures BitAnd(x, Pow2(b)) != 0 <==> x >= Pow2(b)
  {
    AndBit(x, b);
    if x >= Pow2(b) {
      DivUnique(x, Pow2(b), 1, x - Pow2(b));
    } else {
      DivSmall(x, Pow2(b));
    }
  }

  /** Where division stands with divisor multiples of 2^(shift+1) taken out. */
  ghost predicate Dividing(n: int, d: nat, q: int, num: int, shift: nat) {
    n == q * d + num && 0 <= num < d * Pow2(shift)
  }

  /** One step of shift-and-subtract division. */
  lemma DivisionStep(n: int, d: nat, q: int, num: int, shift: nat)
    requires Dividing(n, d, q, num, shift + 1)
    ensures num >= d * Pow2(shift) ==> Dividing(n, d, q + Pow2(shift), num - d * Pow2(shift), shift)
    ensures num < d * Pow2(shift) ==> Dividing(n, d, q, num, shift)
  {
    HalveAligned(d, shift + 1);
    MulDistribute(d, q, Pow2(shift));
  }

  lemma HalveAligned(d: nat, shift: nat)
    requires shift > 0
    ensures d * Pow2(shift) / 2 == d * Pow2(shift - 1)
    ensures d * Pow2(shift) == 2 * (d * Pow2(shift - 1))
  {
    MulAssoc(d, 2, Pow2(shift - 1));
    MulAssoc(2, d, Pow2(shift - 1));
  }

  ghost predicate LowBitsClear(x: Limb, m: nat) {
    Pow2(m) > 0 && x % Pow2(m) == 0
  }

  /** A clear bit above clear bits can be set without a carry. */
  lemma ClearBit(x: Limb, s: nat)
    requires s < 32 && LowBitsClear(x, s + 1)
    ensures LowBitsClear(x, s) && x + Pow2(s) < BASE && (x + Pow2(s)) % Pow2(s) == 0
    ensures Pow2(s) < Pow2(s + 1)
  {
    PowPositive(2, s);
    var p: int, q: int := Pow2(s), x / Pow2(s + 1);
    ClearMultiples(x, p, q);
    Base32();
    PowAdd(2, s + 1, 31 - s);
    EvenRoom(q, Pow2(31 - s), Pow2(s + 1), BASE);
  }

  lemma ClearMultiples(x: int, p: int, q: int)
    requires p > 0 && x == 2 * p * q
    ensures x % p == 0 && (x + p) % p == 0
  {
    MulAssoc(p, 2, q);
    DivUnique(x, p, 2 * q, 0);
    MulDistribute(p, 2 * q, 1);
    DivUnique(x + p, p, 2 * q + 1, 0);
  }

  /** No quotient bit at or below position `shift` is set yet. */
  ghost predicate BitsPending(z: seq<Limb>, shift: int)
    requires |z| == WIDTH && -1 <= shift < 256
  {
    shift >= 0 ==>
      && LowBitsClear(z[shift / 32], shift % 32 + 1)
      && forall j :: 0 <= j < shift / 32 ==> z[j] == 0
  }

  lemma NextBit(z: seq<Limb>, shift: nat)
    requires |z| == WIDTH && shift < 256
    requires LowBitsClear(z[shift / 32], shift % 32)
    requires forall j :: 0 <= j < shift / 32 ==> z[j] == 0
    ensures BitsPending(z, shift - 1)
  {
    if shift % 32 > 0 {
      assert (shift - 1) / 32 == shift / 32 && (shift - 1) % 32 + 1 == shift % 32;
    } else if shift > 0 {
      assert (shift - 1) / 32 == shift / 32 - 1 && (shift - 1) % 32 + 1 == 32;
      ZeroIsClear(32);
    }
  }

  lemma ZeroIsClear(m: nat)
    ensures LowBitsClear(0, m)
  {
    PowPositive(2, m);
    DivUnique(0, Pow2(m), 0, 0);
  }

  lemma ModSmall(v: int, m: int)
    requires 0 <= v < m
    ensures v % m == v
  {
    DivUnique(v, m, 0, v);
  }

  lemma EvenRoom(q: nat, r: nat, p: nat, m: nat)
    requires p * r == m && p * q < m
    ensures p * q + p <= m
  {
    if q >= r {
      MulMonotone(p, p, r, q);
    } else {
      MulLess(p, q, r);
    }
  }

  /** The quotient is zero when the divisor has more bits. */
  lemma QuotientOfSmaller(n: nat, d: nat, nb: nat, db: nat)
    requires nb < db && Pow2(db - 1) <= d && (n == 0 || n < Pow2(nb))
    ensures d > 0 && n / d == 0
  {
    PowPositive(2, db - 1);
    PowMonotoneExp(2, nb, db - 1);
    DivSmall(n, d);
  }

  lemma QuotientFloor(n: int, d: int, q: int, r: int)
    requires d > 0 && n == q * d + r && 0 <= r < d
    ensures n / d == q
  {
    DivUnique(n, d, q, r);
  }

  /** Shifting b left until its top bit meets that of n cannot overflow. */
  lemma AlignedFits(n: nat, d: nat, nb: nat, db: nat)
    requires 0 < db <= nb <= 256 && d < Pow2(db) && n < Pow2(nb) && Pow2(db - 1) <= d
    ensures 0 <= d * Pow2(nb - db) < MODULUS
    ensures n < d * Pow2(nb - db + 1)
  {
    var s := nb - db;
    PowAdd(2, db, s);
    PowAdd(2, db - 1, s + 1);
    assert db + s == nb && db - 1 + (s + 1) == nb;
    ModulusIsPow2();
    PowMonotoneExp(2, nb, 256);
    ScaleBelow(d, Pow2(db), Pow2(s), Pow2(nb));
    ScaleAbove(Pow2(db - 1), d, Pow2(s + 1), Pow2(nb));
  }

  lemma ScaleBelow(d: nat, e: nat, p: nat, m: nat)
    requires d < e && e * p == m && m > 0
    ensures 0 <= d * p < m
  {
    MulNonneg(d, p);
    MulNonneg(e - 1 - d, p);
    MulDistribute(p, d, e - 1 - d);
    MulDistribute(p, e - 1, 1);
  }

  lemma ScaleAbove(d: nat, e: nat, p: nat, m: nat)
    requires d <= e && d * p == m
    ensures m <= e * p
  {
    MulNonneg(e - d, p);
    MulDistribute(p, d, e - d);
  }

  class BaseUint {
    const pn: array<Limb>

    ghost predicate Valid() {
      pn.Length == WIDTH
    }

    ghost function Value(): nat
      reads pn
    {
      Val(pn[..])
    }

    constructor (b: nat)
      requires b < Pow2(64)
      ensures Valid() && fresh(pn) && Value() == b
      ensures pn[0] == b % BASE && pn[1] == b / BASE && forall j :: 2 <= j < WIDTH ==> pn[j] == 0
    {
      pn := new Limb[WIDTH](_ => 0);
      new;
      assert b / BASE < BASE by {
        Base32();
        PowAdd(2, 32, 32);
      }
      pn[0] := b % BASE;
      pn[1] := b / BASE;
      ghost var s := pn[..];
      ValSplit(s, 2);
      ValZero(s[2..]);
      assert s[..2] == [b % BASE, b / BASE];
      ValAppend([b % BASE], b / BASE);
      assert [b % BASE] + [b / BASE] == s[..2];
      ValAppend([], b % BASE);
      assert [] + [b % BASE] == [b % BASE];
    }

    constructor Copy(b: BaseUint)
      requires b.Valid()
      ensures Valid() && fresh(pn) && Value() == b.Value()
    {
      pn := new Limb[WIDTH](_ => 0);
      new;
      for i := 0 to WIDTH
        invariant pn[..i] == b.pn[..i]
      {
        pn[i] := b.pn[i];
      }
      assert pn[..] == b.pn[..];
    }

    /** operator+= : addition modulo 2^256, also when b is this very object. */
    method AddAssign(b: BaseUint)
      requires Valid() && b.Valid()
      modifies pn
      ensures Value() == (old(Value()) + old(b.Value())) % MODULUS
    {
      hide Pow;
      ghost var x, y := pn[..], b.pn[..];
      var carry: nat := 0;
      PowNext(BASE, 0);
      for i := 0 to WIDTH
        invariant carry <= 1
        invariant forall j :: i <= j < WIDTH ==> pn[j] == x[j] && b.pn[j] == y[j]
        invariant Val(pn[..i]) + carry * Pow(BASE, i) == Val(x[..i]) + Val(y[..i])
      {
        ghost var z := pn[..i];
        var n := carry + pn[i] + b.pn[i];
        CarryStep(Val(z), Val(x[..i]), Val(y[..i]), carry, Pow(BASE, i), x[i], y[i], n);
        PowNext(BASE, i);
        pn[i] := n % BASE;
        carry := n / BASE;
        ValSnoc(x, i);
        ValSnoc(y, i);
        assert pn[..i + 1] == z + [n % BASE];
        ValAppend(z, n % BASE);
      }
      assert pn[..] == pn[..WIDTH] && x == x[..WIDTH] && y == y[..WIDTH];
      ValBound(pn[..]);
      ModOf(Val(x) + Val(y), Val(pn[..]), carry);
    }

    /** operator++ : the carry stops at the first limb that does not roll over. */
    method Increment()
      requires Valid()
      modifies pn
      ensures Value() == (old(Value()) + 1) % MODULUS
    {
      ghost var x := pn[..];
      var i := 0;
      pn[i] := (pn[i] + 1) % BASE;
      while pn[i] == 0 && i < WIDTH - 1
        invariant 0 <= i < WIDTH
        invariant Val(x[..i]) == Pow(BASE, i) - 1
        invariant forall j :: 0 <= j < i ==> pn[j] == 0
        invariant pn[i] == (x[i] + 1) % BASE
        invariant forall j :: i < j < WIDTH ==> pn[j] == x[j]
      {
        RolledOver(x, i);
        i := i + 1;
        pn[i] := (pn[i] + 1) % BASE;
      }
      ghost var z := pn[..];
      assert forall j :: 0 <= j < i ==> z[..i][j] == 0;
      assert z[i + 1..] == x[i + 1..];
      RippleMod(x, z, i, MODULUS);
    }

    /** Unary minus: complement every limb, then add one. */
    method Negated() returns (ret: BaseUint)
      requires Valid()
      ensures ret.Valid() && fresh(ret) && fresh(ret.pn)
      ensures ret.Value() == if Value() == 0 then 0 else MODULUS - Value()
    {
      ghost var v := Value();
      ValBound(pn[..]);
      PowPositive(2, 64);
      ret := new BaseUint(0);
      for i := 0 to WIDTH
        invariant forall j :: 0 <= j < i ==> ret.pn[j] == BASE - 1 - pn[j]
      {
        ret.pn[i] := BASE - 1 - pn[i];
      }
      ComplementVal(pn[..], ret.pn[..]);
      ret.Increment();
      ModOf(MODULUS - v, if v == 0 then 0 else MODULUS - v, if v == 0 then 1 else 0);
    }

    /** operator-= : adds the two's complement. */
    method SubAssign(b: BaseUint)
      requires Valid() && b.Valid()
      modifies pn
      ensures Value() == (old(Value()) - old(b.Value())) % MODULUS
    {
      ValBound(pn[..]);
      ValBound(b.pn[..]);
      var minus := b.Negated();
      NegateAdd(Value(), b.Value(), minus.Value());
      AddAssign(minus);
    }

    /** operator*= by a 32-bit factor. */
    method MulAssign32(b32: Limb)
      requires Valid()
      modifies pn
      ensures Value() == old(Value()) * b32 % MODULUS
    {
      ghost var x := pn[..];
      var carry: nat := 0;
      for i := 0 to WIDTH
        invariant carry < BASE
        invariant forall j :: i <= j < WIDTH ==> pn[j] == x[j]
        invariant Val(pn[..i]) + carry * Pow(BASE, i) == Val(x[..i]) * b32
      {
        ghost var z := pn[..i];
        ProductBelow(b32, pn[i]);
        var n := carry + b32 * pn[i];
        assert n < BASE * BASE;  // no wrap of the 64-bit accumulator
        ScaleStep(x, i, Val(z), carry, b32, n);
        pn[i] := n % BASE;
        carry := n / BASE;
        assert pn[..i + 1] == z + [n % BASE];
        ValAppend(z, n % BASE);
      }
      assert pn[..] == pn[..WIDTH] && x == x[..WIDTH];
      ValBound(pn[..]);
      ModOf(Val(x) * b32, Val(pn[..]), carry);
    }

    /** The inner loop of operator*= : adds aj * b, shifted up by j limbs. On a
        cleared number that is its own factor it adds nothing. */
    method AddProductRow(aj: Limb, j: nat, b: BaseUint) returns (ghost carryOut: int)
      requires Valid() && b.Valid() && j < WIDTH
      requires b.pn == pn ==> forall k :: 0 <= k < WIDTH ==> pn[k] == 0
      modifies pn
      ensures Value() + carryOut * MODULUS
           == old(Value()) + aj * Pow(BASE, j) * Val(old(b.pn[..WIDTH - j]))
      ensures b.pn == pn ==> forall k :: 0 <= k < WIDTH ==> pn[k] == 0
    {
      hide Pow;
      ghost var w, y := Val(pn[..]), b.pn[..];
      ghost var s := pn[..];
      var carry: int := 0;
      for i := 0 to WIDTH - j
        invariant 0 <= carry < BASE
        invariant forall k :: i + j <= k < WIDTH ==> pn[k] == s[k]
        invariant b.pn == pn ==> carry == 0 && forall k :: 0 <= k < WIDTH ==> pn[k] == 0
        invariant b.pn[..] == y
        invariant Val(pn[..]) + carry * Pow(BASE, i + j) == w + aj * Pow(BASE, j) * Val(y[..i])
      {
        ghost var before := pn[..];
        ProductBelow(aj, b.pn[i]);
        var n: nat := carry + pn[i + j] + aj * b.pn[i];
        assert n < BASE * BASE;  // no wrap of the 64-bit accumulator
        RowDigit(before, y, i, j, aj, w, carry, n);
        pn[i + j] := n % BASE;
        assert pn[..] == before[i + j := pn[i + j]];
        carry := n / BASE;
      }
      assert y[..WIDTH - j] == b.pn[..WIDTH - j];
      carryOut := carry;
    }

    /** Assignment from zero. */
    method Clear()
      requires Valid()
      modifies pn
      ensures forall k :: 0 <= k < WIDTH ==> pn[k] == 0
      ensures Value() == 0
    {
      for i := 0 to WIDTH
        invariant forall j :: 0 <= j < i ==> pn[j] == 0
      {
        pn[i] := 0;
      }
      ValZero(pn[..]);
    }

    /** The outer loop of operator*= : one row for every limb of a. */
    method AddProductRows(a: BaseUint, b: BaseUint) returns (ghost q: int)
      requires Valid() && a.Valid() && b.Valid() && a.pn != pn
      requires forall k :: 0 <= k < WIDTH ==> pn[k] == 0
      modifies pn
      ensures b.pn != pn ==> a.Value() * b.Value() == Value() + MODULUS * q
      ensures b.pn == pn ==> forall k :: 0 <= k < WIDTH ==> pn[k] == 0
    {
      ghost var x, y := a.pn[..], b.pn[..];
      ValZero(pn[..]);
      q := 0;
      for j := 0 to WIDTH
        invariant b.pn != pn ==> Val(x[..j]) * Val(y) == Val(pn[..]) + MODULUS * q
        invariant b.pn == pn ==> forall k :: 0 <= k < WIDTH ==> pn[k] == 0
      {
        ghost var w := Val(pn[..]);
        ghost var carry := AddProductRow(a.pn[j], j, b);
        if b.pn != pn {
          assert y[..WIDTH - j] == b.pn[..WIDTH - j];
          RowValue(x, y, j, w, Val(pn[..]), carry, q, MODULUS);
          q := q + carry + x[j] * Val(y[WIDTH - j..]);
        }
      }
      assert x[..WIDTH] == x;
    }

    /** operator*= by another number. The product is right modulo 2^256 if b is a different
        object. Multiplying a number by itself in place clears it before reading it and always
        gives zero, which is right only for a multiple of 2^128. */
    method MulAssign(b: BaseUint)
      requires Valid() && b.Valid()
      modifies pn
      ensures b.pn != pn ==> Value() == old(Value()) * b.Value() % MODULUS
      ensures b.pn == pn ==> Value() == 0
      ensures Value() == old(Value()) * old(b.Value()) % MODULUS <==> b.pn != pn || LowHalf(old(Value())) == 0
    {
      var a := new BaseUint.Copy(this);
      Clear();
      ghost var q := AddProductRows(a, b);
      ValBound(pn[..]);
      if b.pn != pn {
        ModOf(a.Value() * b.Value(), Value(), q);
      } else {
        ValZero(pn[..]);
        SquareVanishes(a.Value(), 128);
        ModulusIsPow2();
      }
    }

    /** Three-way comparison from the most significant limb down. */
    method CompareTo(b: BaseUint) returns (r: int)
      requires Valid() && b.Valid()
      ensures r == if Value() < b.Value() then -1 else if Value() > b.Value() then 1 else 0
    {
      for i := WIDTH downto 0
        invariant forall j :: i <= j < WIDTH ==> pn[j] == b.pn[j]
      {
        if pn[i] < b.pn[i] {
          assert pn[..][i + 1..] == b.pn[..][i + 1..];
          TopLimbDecides(pn[..], b.pn[..], i);
          return -1;
        }
        if pn[i] > b.pn[i] {
          assert pn[..][i + 1..] == b.pn[..][i + 1..];
          TopLimbDecides(b.pn[..], pn[..], i);
          return 1;
        }
      }
      assert pn[..] == b.pn[..];
      return 0;
    }

    /** `pn[p] |= v` where v and the limb have no binary digit in common. */
    method OrLimb(p: nat, v: Limb, ghost m: nat)
      requires Valid() && p < WIDTH && pn[p] + v < BASE
      requires Pow2(m) > 0
      requires (pn[p] < Pow2(m) && v % Pow2(m) == 0) || (v < Pow2(m) && pn[p] % Pow2(m) == 0)
      modifies pn
      ensures pn[p] == old(pn[p]) + v
      ensures forall j :: 0 <= j < WIDTH && j != p ==> pn[j] == old(pn[j])
      ensures Value() == old(Value()) + v * Pow(BASE, p)
    {
      ghost var before := pn[..];
      if pn[p] < Pow2(m) && v % Pow2(m) == 0 {
        OrDisjoint(v, pn[p], m);
      } else {
        OrDisjoint(pn[p], v, m);
      }
      pn[p] := BitOr(pn[p], v);
      ValUpdate(before, p, pn[p]);
      assert pn[..] == before[p := pn[p]];
    }

    /** The two guarded ORs of one step of operator<<= . */
    method PlaceLeft(x: Limb, at: nat, s: nat)
      requires Valid() && s < 32
      requires at < WIDTH ==> pn[at] < Pow2(s)
      requires at + 1 < WIDTH ==> pn[at + 1] == 0
      modifies pn
      ensures at + 1 < WIDTH ==> pn[at + 1] < Pow2(s)
      ensures forall j :: at + 1 < j < WIDTH ==> pn[j] == old(pn[j])
      ensures Value() == old(Value()) + PlacedLeft(x, at, s)
    {
      ShiftSplit(x, s);
      if at + 1 < WIDTH && s != 0 {
        OrLimb(at + 1, x / Pow2(32 - s), s);
      }
      if at < WIDTH {
        OrLimb(at, x * Pow2(s) % BASE, s);
      }
    }

    /** operator<<= : multiplication by a power of two modulo 2^256. */
    method ShiftLeft(shift: nat)
      requires Valid()
      modifies pn
      ensures Value() == old(Value()) * Pow2(shift) % MODULUS
    {
      var a := new BaseUint.Copy(this);
      Clear();
      ghost var x := a.pn[..];
      var k, s := shift / 32, shift % 32;
      PowPositive(2, s);
      ghost var q: int := 0;
      for i := 0 to WIDTH
        invariant forall j :: i + k < j < WIDTH ==> pn[j] == 0
        invariant i + k < WIDTH ==> pn[i + k] < Pow2(s)
        invariant a.pn[..] == x
        invariant Val(x[..i]) * Pow2(32 * k + s) == Value() + MODULUS * q
      {
        ghost var v := Value();
        PlaceLeft(a.pn[i], i + k, s);
        q := ShiftLeftStep(x, i, k, s, v, Value(), q);
      }
      assert x[..WIDTH] == x;
      ValBound(pn[..]);
      ModOf(Val(x) * Pow2(shift), Val(pn[..]), q);
    }

    /** The two guarded ORs of one step of operator>>= . */
    method PlaceRight(x: Limb, at: int, s: nat)
      requires Valid() && s < 32 && at < WIDTH
      requires at - 1 >= 0 ==> pn[at - 1] < Pow2(32 - s)
      requires at >= 0 ==> pn[at] == 0
      modifies pn
      ensures at >= 0 ==> pn[at] < Pow2(32 - s)
      ensures forall j :: 0 <= j < WIDTH && at < j ==> pn[j] == old(pn[j])
      ensures Value() == old(Value()) + PlacedRight(x, at, s)
    {
      ShiftSplit(x, 32 - s);
      if s == 0 {
        WholeLimb(x);
      }
      if at - 1 >= 0 && s != 0 {
        OrLimb(at - 1, x * Pow2(32 - s) % BASE, 32 - s);
      }
      if at >= 0 {
        OrLimb(at, x / Pow2(s), 32 - s);
      }
    }

    /** operator>>= : floor division by a power of two. */
    method ShiftRight(shift: nat)
      requires Valid()
      modifies pn
      ensures Pow2(shift) > 0
      ensures Value() == old(Value()) / Pow2(shift)
    {
      var a := new BaseUint.Copy(this);
      Clear();
      ghost var x := a.pn[..];
      var k, s := shift / 32, shift % 32;
      PowPositive(2, shift);
      DivSmall(0, Pow2(shift));
      for i := 0 to WIDTH
        invariant forall j :: 0 <= j < WIDTH && i - k <= j ==> pn[j] == 0
        invariant i - k - 1 >= 0 ==> pn[i - k - 1] < Pow2(32 - s)
        invariant a.pn[..] == x
        invariant Value() == Val(x[..i]) / Pow2(32 * k + s)
      {
        PlaceRight(a.pn[i], i - k, s);
        ShiftRightStep(x, i, k, s);
      }
      assert x[..WIDTH] == x;
    }

    /** operator== with a 64-bit number. */
    method EqualTo(b: nat) returns (r: bool)
      requires Valid() && b < Pow2(64)
      ensures r <==> Value() == b
    {
      var c := new BaseUint(b);
      if pn[..] != c.pn[..] && Val(pn[..]) == Val(c.pn[..]) {
        ValInjective(pn[..], c.pn[..]);
      }
      for i := WIDTH downto 2
        invariant forall j :: i <= j < WIDTH ==> pn[j] == 0
      {
        if pn[i] != 0 {
          assert pn[..][i] != c.pn[..][i];
          return false;
        }
      }
      if pn[1] != b / BASE {
        assert pn[..][1] != c.pn[..][1];
        return false;
      }
      if pn[0] != b % BASE {
        assert pn[..][0] != c.pn[..][0];
        return false;
      }
      assert pn[..] == c.pn[..];
      return true;
    }

    /** The low 64 bits. */
    method GetLow64() returns (r: nat)
      requires Valid()
      ensures Pow2(64) > 0 && r == Value() % Pow2(64)
    {
      ghost var x := pn[..];
      ValSplit(x, 2);
      ValSnoc(x, 1);
      ValSnoc(x, 0);
      ValBound(x[..2]);
      BasePower(2);
      assert Pow(BASE, 1) == BASE && Pow(BASE, 0) == 1;
      Base32();
      PowPositive(2, 32);
      DivUnique(pn[1] * BASE, Pow2(32), pn[1], 0);
      OrDisjoint(pn[1] * BASE, pn[0], 32);
      r := BitOr(pn[0], pn[1] * BASE);
      DivUnique(Val(x), Pow2(64), Val(x[2..]), Val(x[..2]));
    }

    /** The position of the highest set bit plus one, or zero. */
    method Bits() returns (r: nat)
      requires Valid()
      ensures Value() == 0 ==> r == 0
      ensures Value() > 0 ==> 0 < r <= 256 && Pow2(r - 1) <= Value() < Pow2(r)
    {
      for pos := WIDTH downto 0
        invariant forall j :: pos <= j < WIDTH ==> pn[j] == 0
      {
        if pn[pos] != 0 {
          Base32();
          for bits := 32 downto 1
            invariant pn[pos] < Pow2(bits)
          {
            TopBit(pn[pos], bits);
            if BitAnd(pn[pos], Pow2(bits)) != 0 {
              LeadingLimb(pn[..], pos, bits);
              PowPositive(2, 32 * pos + bits);
              return 32 * pos + bits + 1;
            }
          }
          LeadingLimb(pn[..], pos, 0);
          PowPositive(2, 32 * pos);
          return 32 * pos + 1;
        }
      }
      ValZero(pn[..]);
      return 0;
    }

    /** `pn[shift / 32] |= 1 << (shift & 31)` on a clear bit. */
    method SetBit(shift: nat)
      requires Valid() && shift < 256 && LowBitsClear(pn[shift / 32], shift % 32 + 1)
      modifies pn
      ensures Value() == old(Value()) + Pow2(shift)
      ensures LowBitsClear(pn[shift / 32], shift % 32)
      ensures forall j :: 0 <= j < WIDTH && j != shift / 32 ==> pn[j] == old(pn[j])
    {
      var l, s := shift / 32, shift % 32;
      ClearBit(pn[l], s);
      ShiftWeight(0, l, s);
      OrLimb(l, Pow2(s), s + 1);
    }

    /** The body of that loop: take the aligned divisor out once if it fits. */
    method SubtractOnce(num: BaseUint, div: BaseUint, shift: nat, ghost n: nat, ghost d: nat)
      requires Valid() && num.Valid() && div.Valid()
      requires pn != num.pn && pn != div.pn && num.pn != div.pn
      requires shift < 256 && div.Value() == d * Pow2(shift)
      requires Dividing(n, d, Value(), num.Value(), shift + 1)
      requires LowBitsClear(pn[shift / 32], shift % 32 + 1)
      modifies pn, num.pn
      ensures Dividing(n, d, Value(), num.Value(), shift)
      ensures LowBitsClear(pn[shift / 32], shift % 32)
      ensures forall j :: 0 <= j < WIDTH && j != shift / 32 ==> pn[j] == old(pn[j])
    {
      ghost var r, a := num.Value(), div.Value();
      DivisionStep(n, d, Value(), r, shift);
      ClearBit(pn[shift / 32], shift % 32);
      var c := num.CompareTo(div);
      if c >= 0 {
        ValBound(num.pn[..]);
        ModSmall(r - a, MODULUS);
        num.SubAssign(div);
        SetBit(shift);
      }
    }

    /** The subtracting loop of operator/= , from the aligned divisor down to the
        divisor itself. */
    method SubtractAligned(num: BaseUint, div: BaseUint, top: nat, ghost n: nat, ghost d: nat)
      requires Valid() && num.Valid() && div.Valid()
      requires pn != num.pn && pn != div.pn && num.pn != div.pn
      requires d > 0 && top < 256 && div.Value() == d * Pow2(top)
      requires Dividing(n, d, 0, num.Value(), top + 1)
      requires forall j :: 0 <= j < WIDTH ==> pn[j] == 0
      modifies pn, num.pn, div.pn
      ensures Value() == n / d
    {
      ValZero(pn[..]);
      ZeroIsClear(top % 32 + 1);
      var shift: int := top;
      while shift >= 0
        invariant -1 <= shift <= top
        invariant Dividing(n, d, Value(), num.Value(), shift + 1)
        invariant shift >= 0 ==> div.Value() == d * Pow2(shift)
        invariant BitsPending(pn[..], shift)
      {
        SubtractOnce(num, div, shift, n, d);
        div.ShiftRight(1);
        if shift > 0 {
          HalveAligned(d, shift);
        }
        NextBit(pn[..], shift);
        shift := shift - 1;
      }
      QuotientFloor(n, d, Value(), num.Value());
    }

    /** operator/= : shift-and-subtract division. A zero divisor throws, after the
        number has already been cleared; otherwise the result is the exact floor
        quotient, also when b is this very object. */
    method DivAssign(b: BaseUint) returns (thrown: bool)
      requires Valid() && b.Valid()
      modifies pn
      ensures thrown <==> old(b.Value()) == 0
      ensures thrown ==> Value() == 0
      ensures !thrown ==> Value() == old(Value()) / old(b.Value())
    {
      ghost var n, d := Value(), b.Value();
      var div := new BaseUint.Copy(b);
      var num := new BaseUint.Copy(this);
      Clear();
      var numBits := num.Bits();
      var divBits := div.Bits();
      if divBits == 0 {
        return true;
      }
      if divBits > numBits {
        QuotientOfSmaller(n, d, numBits, divBits);
        return false;
      }
      var shift := numBits - divBits;
      AlignedFits(n, d, numBits, divBits);
      ModSmall(div.Value() * Pow2(shift), MODULUS);
      div.ShiftLeft(shift);
      SubtractAligned(num, div, shift, n, d);
      return false;
    }

    /** operator= from a 64-bit number. */
    method Assign(b: nat)
      requires Valid() && b < Pow2(64)
      modifies pn
      ensures Value() == b
    {
      var c := new BaseUint(b);
      assert b / BASE == c.pn[1];
      pn[0] := b % BASE;
      pn[1] := b / BASE;
      for i := 2 to WIDTH
        invariant pn[0] == b % BASE && pn[1] == b / BASE
        invariant forall j :: 2 <= j < i ==> pn[j] == 0
        invariant forall j :: 0 <= j < WIDTH ==>
          c.pn[j] == (if j == 0 then b % BASE else if j == 1 then b / BASE else 0)
        invariant c.Value() == b
      {
        pn[i] := 0;
      }
      assert pn[..] == c.pn[..];
    }

    /** operator== : a comparison of the limbs. */
    method Equals(b: BaseUint) returns (r: bool)
      requires Valid() && b.Valid()
      ensures r <==> Value() == b.Value()
    {
      assert Val(pn[..]) == Val(b.pn[..]) ==> pn[..] == b.pn[..] by {
        if Val(pn[..]) == Val(b.pn[..]) {
          ValInjective(pn[..], b.pn[..]);
        }
      }
      r := pn[..] == b.pn[..];
    }
  }
}
