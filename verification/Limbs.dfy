/** Little-endian sequences of 32-bit limbs and the number each denotes. */
module Limbs {
  import opened Powers

  const BASE: nat := 0x1_0000_0000

  type Limb = x: nat | x < BASE

  function Val(s: seq<Limb>): nat {
    if |s| == 0 then 0 else s[0] + BASE * Val(s[1..])
  }

  lemma Base32()
    ensures Pow2(8) == 0x100 && Pow2(16) == 0x1_0000 && Pow2(32) == BASE
  {
    assert Pow2(8) == 0x100;
    PowAdd(2, 8, 8);
    PowAdd(2, 16, 16);
  }

  /** A power of the limb base is a power of two. */
  lemma BasePower(i: nat)
    ensures Pow(BASE, i) == Pow2(32 * i) > 0
  {
    Base32();
    PowPow(2, 32, i);
    PowPositive(2, 32 * i);
  }

  lemma {:induction false} ValAppend(s: seq<Limb>, d: Limb)
    ensures Val(s + [d]) == Val(s) + d * Pow(BASE, |s|)
  {
    if |s| == 0 {
      assert s + [d] == [d];
      assert Val([d][1..]) == 0;
    } else {
      assert (s + [d])[1..] == s[1..] + [d];
      ValAppend(s[1..], d);
      MulAssoc(BASE, d, Pow(BASE, |s| - 1));
      MulAssoc(d, BASE, Pow(BASE, |s| - 1));
      assert BASE * d == d * BASE;
    }
  }

  /** Reading one more limb of a prefix adds that limb at its weight. */
  lemma ValSnoc(s: seq<Limb>, i: nat)
    requires i < |s|
    ensures Val(s[..i + 1]) == Val(s[..i]) + s[i] * Pow(BASE, i)
  {
    assert s[..i + 1] == s[..i] + [s[i]];
    ValAppend(s[..i], s[i]);
  }

  lemma {:induction false} ValBound(s: seq<Limb>)
    ensures Val(s) < Pow(BASE, |s|)
  {
    if |s| > 0 {
      ValBound(s[1..]);
    }
  }

  /** Replacing a limb moves the value by the difference at that limb's weight. */
  lemma {:induction false} ValUpdate(s: seq<Limb>, i: nat, d: Limb)
    requires i < |s|
    ensures Val(s[i := d]) == Val(s) + (d - s[i]) * Pow(BASE, i)
  {
    if i == 0 {
      assert s[0 := d][1..] == s[1..];
    } else {
      assert s[i := d][1..] == s[1..][i - 1 := d];
      ValUpdate(s[1..], i - 1, d);
      var e, p := d - s[i], Pow(BASE, i - 1);
      assert BASE * (e * p) == e * (BASE * p) by {
        MulAssoc(BASE, e, p);
        MulAssoc(e, BASE, p);
      }
    }
  }

  lemma {:induction false} ValZero(s: seq<Limb>)
    requires forall i :: 0 <= i < |s| ==> s[i] == 0
    ensures Val(s) == 0
  {
    if |s| > 0 {
      ValZero(s[1..]);
    }
  }

  /** Leading zero limbs do not count. */
  lemma {:induction false} ValTrim(s: seq<Limb>, n: nat)
    requires n <= |s| && forall i :: n <= i < |s| ==> s[i] == 0
    ensures Val(s) == Val(s[..n])
  {
    if n == 0 {
      ValZero(s);
    } else {
      ValTrim(s[1..], n - 1);
      assert s[1..][..n - 1] == s[..n][1..];
    }
  }

  /** The value splits at any limb boundary. */
  lemma {:induction false} ValSplit(s: seq<Limb>, i: nat)
    requires i <= |s|
    ensures Val(s) == Val(s[..i]) + Pow(BASE, i) * Val(s[i..])
  {
    if i == 0 {
      assert s[0..] == s;
    } else {
      ValSplit(s[1..], i - 1);
      assert s[1..][..i - 1] == s[..i][1..] && s[1..][i - 1..] == s[i..];
      var p, h := Pow(BASE, i - 1), Val(s[i..]);
      MulDistribute(BASE, Val(s[..i][1..]), p * h);
      MulAssoc(BASE, p, h);
    }
  }

  /** Two numbers with equal limbs above position i compare as their limbs at i. */
  lemma TopLimbDecides(a: seq<Limb>, b: seq<Limb>, i: nat)
    requires |a| == |b| && i < |a| && a[i + 1..] == b[i + 1..] && a[i] < b[i]
    ensures Val(a) < Val(b)
  {
    ValSplit(a, i + 1);
    ValSplit(b, i + 1);
    ValSnoc(a, i);
    ValSnoc(b, i);
    ValBound(a[..i]);
    DigitDecides(Val(a[..i]), Val(b[..i]), a[i], b[i], Pow(BASE, i));
  }

  lemma DigitDecides(lowA: nat, lowB: nat, a: nat, b: nat, p: nat)
    requires lowA < p && a < b
    ensures lowA + a * p < lowB + b * p
  {
    MulLess(p, a, b);
  }

  /** The value determines the limbs. */
  lemma {:induction false} ValInjective(a: seq<Limb>, b: seq<Limb>)
    requires |a| == |b| && Val(a) == Val(b)
    ensures a == b
  {
    if |a| > 0 {
      DivUnique(Val(a), BASE, Val(a[1..]), a[0]);
      DivUnique(Val(b), BASE, Val(b[1..]), b[0]);
      ValInjective(a[1..], b[1..]);
      assert a == [a[0]] + a[1..];
      assert b == [b[0]] + b[1..];
    }
  }

  /** Splitting x << s (s at most the limb width) into a kept limb and a spilled one. */
  lemma ShiftSplit(x: Limb, s: nat)
    requires s <= 32
    ensures Pow2(32 - s) > 0 && Pow2(s) > 0
    ensures x * Pow2(s) == x / Pow2(32 - s) * BASE + x * Pow2(s) % BASE
    ensures x / Pow2(32 - s) < Pow2(s)
    ensures x * Pow2(s) % BASE % Pow2(s) == 0 && x * Pow2(s) % BASE + Pow2(s) <= BASE
  {
    Base32();
    PowAdd(2, s, 32 - s);
    PowPositive(2, s);
    PowPositive(2, 32 - s);
    SpillSplit(x, Pow2(s), Pow2(32 - s), BASE);
  }

  lemma SpillSplit(x: nat, p: nat, r: nat, m: nat)
    requires p > 0 && r > 0 && p * r == m && x < m
    ensures m > 0 && x * p == x / r * m + x * p % m
    ensures x / r < p && x * p % m % p == 0 && x * p % m + p <= m
  {
    var h, l := x / r, x % r;
    assert x == r * h + l;
    ScaleSplit(h, l, p, r, m);
    MulLess(p, l, r);
    DivUnique(x * p, m, h, l * p);
    DivUnique(l * p, p, l, 0);
    QuotientBelow(r, h, p, x);
  }

  lemma ScaleSplit(h: nat, l: nat, p: nat, r: nat, m: nat)
    requires p * r == m
    ensures (r * h + l) * p == m * h + l * p
  {
    MulDistribute(p, r * h, l);
    MulAssoc(p, r, h);
  }
}
