/** Powers of natural numbers, and the few facts about them that the radix and
    shift arguments of the other modules rest on. */
module Powers {

  function Pow(b: nat, e: nat): nat {
    if e == 0 then 1 else b * Pow(b, e - 1)
  }

  function Pow2(e: nat): nat { Pow(2, e) }

  lemma {:induction false} PowPositive(b: nat, e: nat)
    requires b > 0
    ensures Pow(b, e) > 0
  {
    if e > 0 {
      PowPositive(b, e - 1);
    }
  }

  lemma PowNext(b: nat, e: nat)
    ensures Pow(b, e + 1) == b * Pow(b, e) && Pow(b, 0) == 1
  {
  }

  lemma {:induction false} PowAdd(b: nat, m: nat, n: nat)
    ensures Pow(b, m + n) == Pow(b, m) * Pow(b, n)
  {
    if m == 0 {
    } else {
      PowAdd(b, m - 1, n);
      assert Pow(b, m + n) == b * (Pow(b, m - 1) * Pow(b, n));
    }
  }

  lemma {:induction false} PowPow(b: nat, m: nat, n: nat)
    ensures Pow(Pow(b, m), n) == Pow(b, m * n)
  {
    if n == 0 {
      assert m * n == 0;
    } else {
      PowPow(b, m, n - 1);
      PowAdd(b, m, m * (n - 1));
      assert m + m * (n - 1) == m * n;
    }
  }

  lemma {:induction false} PowMonotoneExp(b: nat, m: nat, n: nat)
    requires b > 0 && m <= n
    ensures Pow(b, m) <= Pow(b, n)
  {
    PowAdd(b, m, n - m);
    PowPositive(b, n - m);
    PowPositive(b, m);
    MulGrows(Pow(b, m), Pow(b, n - m));
  }

  lemma MulGrows(x: nat, y: nat)
    requires y >= 1
    ensures x <= x * y
  {
  }

  lemma MulNonneg(x: int, y: int)
    requires 0 <= x && 0 <= y
    ensures 0 <= x * y
  {
  }

  lemma MulMonotone(a: nat, b: nat, c: nat, d: nat)
    requires a <= b && c <= d
    ensures a * c <= b * d
  {
    assert a * c <= b * c;
    assert b * c <= b * d;
  }

  lemma {:induction false} PowMonotoneBase(a: nat, b: nat, e: nat)
    requires a <= b
    ensures Pow(a, e) <= Pow(b, e)
  {
    if e > 0 {
      PowMonotoneBase(a, b, e - 1);
      MulMonotone(a, b, Pow(a, e - 1), Pow(b, e - 1));
    }
  }

  lemma {:induction false} PowStrictBase(a: nat, b: nat, e: nat)
    requires a < b && e > 0
    ensures Pow(a, e) < Pow(b, e)
  {
    PowMonotoneBase(a, b, e - 1);
    PowPositive(b, e - 1);
    MulMonotone(a, a, Pow(a, e - 1), Pow(b, e - 1));
    MulLess(Pow(b, e - 1), a, b);
  }

  /** Quotients nest: dividing by x and then by y divides by the product. */
  lemma DivDiv(n: nat, x: nat, y: nat)
    requires x > 0 && y > 0
    ensures x * y > 0
    ensures n / x / y == n / (x * y)
  {
    var q, r := n / x, n % x;
    var q', r' := q / y, q % y;
    assert x * y > 0;
    assert n == x * (y * q' + r') + r;
    assert x * (y * q' + r') == (x * y) * q' + x * r' by { MulDistribute(x, y * q', r'); MulAssoc(x, y, q'); }
    assert x * r' + r < x * y by { MulLess(x, r', y); }
    DivUnique(n, x * y, q', x * r' + r);
  }

  lemma MulLess(x: nat, a: nat, b: nat)
    requires a < b
    ensures x * a + x <= x * b
  {
    assert x * (a + 1) <= x * b;
  }

  lemma MulDistribute(x: int, a: int, b: int)
    ensures x * (a + b) == x * a + x * b
  {
  }

  lemma MulAssoc(x: int, a: int, b: int)
    ensures x * (a * b) == (x * a) * b
  {
  }

  lemma DivUnique(n: int, d: int, q: int, r: int)
    requires d > 0 && n == d * q + r && 0 <= r < d
    ensures n / d == q && n % d == r
  {
    var q0, r0 := n / d, n % d;
    assert n == d * q0 + r0;
    ProductGap(d, q0, q, r - r0);
  }

  lemma ProductGap(d: int, x: int, y: int, gap: int)
    requires d > 0 && d * x == d * y + gap && -d < gap < d
    ensures x == y
  {
    MulDistribute(d, x, -y);
    var k := x - y;
    assert d * k == gap;
    assert k >= 1 ==> d * k >= d * 1;
    assert k <= -1 ==> d * k <= d * -1;
  }

  lemma QuotientBelow(p: int, q: int, x: int, r: int)
    requires p > 0 && p * q <= r < x * p
    ensures q < x
  {
    assert q >= x ==> p * q >= p * x;
  }

  lemma DivMonotone(a: nat, b: nat, d: nat)
    requires d > 0 && a <= b
    ensures a / d <= b / d
  {
    var qa, qb := a / d, b / d;
    assert d * qb + b % d == b && d * qa <= a;
    assert qa > qb ==> d * (qb + 1) <= d * qa;
  }

  lemma QuotientAtMost(x: int, p: int)
    requires x >= 0 && p > 0
    ensures 0 <= x / p <= x
  {
    MulNonneg(x + 1, p - 1);
    MulDistribute(x + 1, p - 1, 1);
    QuotientBelow(p, x / p, x + 1, x);
  }

  function One(b: bool): int {
    if b then 1 else 0
  }

  function Max(a: int, b: int): int {
    if a < b then b else a
  }
}
