/** Positional numerals: the number a digit sequence denotes, its canonical digits, and
    the in-place multiply-and-add that radix conversion is made of. */
module Radix {
  import opened Powers

  ghost predicate Digital(base: nat, s: seq<nat>) {
    forall i :: 0 <= i < |s| ==> s[i] < base
  }

  /** The number denoted by digits, most significant first. */
  function Val(base: nat, s: seq<nat>): nat {
    if s == [] then 0 else Val(base, s[..|s| - 1]) * base + s[|s| - 1]
  }

  /** The digits of a number, without leading zeros. */
  function Digits(base: nat, n: nat): seq<nat>
    requires base >= 2
  {
    if n == 0 then [] else (DivBelow(n, base); Digits(base, n / base) + [n % base])
  }

  lemma DivBelow(n: nat, base: nat)
    requires base >= 2 && n > 0
    ensures n / base < n
  {
    var q := n / base;
    assert base * q <= n;
    assert q > 0 ==> 2 * q <= base * q;
  }

  lemma {:induction false} ValPrepend(base: nat, d: nat, s: seq<nat>)
    ensures Val(base, [d] + s) == d * Pow(base, |s|) + Val(base, s)
  {
    if s == [] {
      assert [d] + s == [d];
      assert [d][..0] == [];
    } else {
      var t, x := s[..|s| - 1], s[|s| - 1];
      assert ([d] + s)[..|s|] == [d] + t;
      ValPrepend(base, d, t);
      var p := Pow(base, |t|);
      assert (d * p + Val(base, t)) * base == d * (base * p) + Val(base, t) * base;
    }
  }

  lemma AppendBelow(base: nat, v: nat, p: nat, x: nat)
    requires v < p && x < base
    ensures v * base + x < base * p
  {
    MulLess(base, v, p);
  }

  lemma SplitNumber(base: int, v: int, x: int)
    requires base >= 2 && v >= 0 && 0 <= x < base
    ensures (v * base + x) / base == v && (v * base + x) % base == x && (v + x > 0 ==> v * base + x > 0)
  {
    DivUnique(v * base + x, base, v, x);
    MulNonneg(v, base - 1);
    MulDistribute(v, base - 1, 1);
  }

  lemma {:induction false} ValBelow(base: nat, s: seq<nat>)
    requires Digital(base, s)
    ensures Val(base, s) < Pow(base, |s|)
  {
    if s != [] {
      ValBelow(base, s[..|s| - 1]);
      AppendBelow(base, Val(base, s[..|s| - 1]), Pow(base, |s| - 1), s[|s| - 1]);
    }
  }

  /** Leading zeros do not count. */
  lemma {:induction false} ValStrip(base: nat, s: seq<nat>, i: nat)
    requires i <= |s| && forall k :: 0 <= k < i ==> s[k] == 0
    ensures Val(base, s) == Val(base, s[i..])
    decreases i
  {
    if i > 0 {
      ValPrepend(base, s[0], s[1..]);
      assert s == [s[0]] + s[1..];
      ValStrip(base, s[1..], i - 1);
      assert s[1..][i - 1..] == s[i..];
    } else {
      assert s[0..] == s;
    }
  }

  ghost predicate Canonical(base: nat, s: seq<nat>) {
    Digital(base, s) && (s == [] || s[0] != 0)
  }

  /** Digits without leading zeros are the digits of their number. */
  lemma {:induction false} CanonicalDigits(base: nat, s: seq<nat>)
    requires base >= 2 && Canonical(base, s)
    ensures Digits(base, Val(base, s)) == s && (s != [] ==> Val(base, s) > 0)
  {
    if s != [] {
      var t, x := s[..|s| - 1], s[|s| - 1];
      CanonicalDigits(base, t);
      SplitNumber(base, Val(base, t), x);
      assert t + [x] == s;
    }
  }

  lemma {:induction false} DigitsCanonical(base: nat, n: nat)
    requires base >= 2
    ensures Canonical(base, Digits(base, n)) && Val(base, Digits(base, n)) == n && (n > 0 ==> Digits(base, n) != [])
    decreases n
  {
    hide Val, Digits;
    DigitsNext(base, n);
    if n > 0 {
      DivBelow(n, base);
      DivModSum(n, base);
      DigitsCanonical(base, n / base);
      AppendDigit(base, Digits(base, n / base), n % base);
    }
  }

  lemma DigitsNext(base: nat, n: nat)
    requires base >= 2
    ensures Digits(base, n) == (if n == 0 then [] else Digits(base, n / base) + [n % base]) && Val(base, []) == 0
  {
  }

  lemma DivModSum(n: nat, base: nat)
    requires base > 0
    ensures n == (n / base) * base + n % base && n % base < base && (n / base == 0 ==> n % base == n)
  {
    var q, r := n / base, n % base;
    assert n == base * q + r;
  }

  lemma AppendDigit(base: nat, s: seq<nat>, x: nat)
    requires Canonical(base, s) && x < base && (s == [] ==> x > 0)
    ensures Canonical(base, s + [x]) && Val(base, s + [x]) == Val(base, s) * base + x
  {
    assert (s + [x])[..|s|] == s;
  }

  /** The digits u and a carry out of them hold mult times the number of s, plus add. */
  ghost predicate Carried(base: nat, mult: nat, add: nat, s: seq<nat>, u: seq<nat>, carry: nat) {
    |u| == |s| && Val(base, u) + carry * Pow(base, |s|) == Val(base, s) * mult + add
  }

  /** One step of the carry chain, from a digit to the digit before it. */
  lemma CarryStep(base: nat, mult: nat, add: nat, x: nat, s: seq<nat>, u: seq<nat>, carry: nat, q: nat, r: nat)
    requires Carried(base, mult, add, s, u, carry) && carry + mult * x == base * q + r
    ensures Carried(base, mult, add, [x] + s, [r] + u, q)
  {
    hide Val, Pow;
    ValPrepend(base, r, u);
    ValPrepend(base, x, s);
    PowNext(base, |s|);
    CarrySums(base, mult, add, x, Val(base, s), Val(base, u), carry, Pow(base, |s|), q, r);
  }

  lemma CarrySums(base: int, mult: int, add: int, x: int, v: int, w: int, carry: int, p: int, q: int, r: int)
    requires w + carry * p == v * mult + add && carry + mult * x == base * q + r
    ensures (r * p + w) + q * (base * p) == (x * p + v) * mult + add
  {
    assert r * p + q * (base * p) == (base * q + r) * p;
    assert (carry + mult * x) * p == carry * p + mult * (x * p);
    assert (x * p + v) * mult == mult * (x * p) + v * mult;
  }

  /** Turns the number n held by a buffer of digits into n * mult + add, in place. What
      does not fit is returned. */
  method MulAdd(b: array<nat>, base: nat, mult: nat, add: nat) returns (carry: nat)
    requires base >= 2 && Digital(base, b[..])
    modifies b
    ensures Digital(base, b[..])
    ensures Val(base, b[..]) + carry * Pow(base, b.Length) == Val(base, old(b[..])) * mult + add
  {
    hide Carried, Val, Pow;
    carry := add;
    var i := b.Length;
    NothingCarried(base, mult, add);
    assert b[i..] == [] && old(b[..])[i..] == [];
    while i > 0
      invariant 0 <= i <= b.Length
      invariant Digital(base, b[..])
      invariant b[..i] == old(b[..i])
      invariant Carried(base, mult, add, old(b[..])[i..], b[i..], carry)
    {
      ghost var s, u := old(b[..])[i..], b[i..];
      i := i - 1;
      var x := b[i];
      var c := carry + mult * x;
      CarryStep(base, mult, add, x, s, u, carry, c / base, c % base);
      assert old(b[..])[i..] == [x] + s;
      b[i] := c % base;
      carry := c / base;
      assert b[i..] == [b[i]] + u;
    }
    assert b[0..] == b[..] && old(b[..])[0..] == old(b[..]);
    AllCarried(base, mult, add, old(b[..]), b[..], carry);
  }

  lemma NothingCarried(base: nat, mult: nat, add: nat)
    ensures Carried(base, mult, add, [], [], add)
  {
  }

  lemma AllCarried(base: nat, mult: nat, add: nat, s: seq<nat>, u: seq<nat>, carry: nat)
    requires Carried(base, mult, add, s, u, carry)
    ensures Val(base, u) + carry * Pow(base, |u|) == Val(base, s) * mult + add
  {
  }

  /** Nothing is carried out of a buffer that is large enough. */
  lemma NoCarry(carry: nat, p: nat, v: nat, n: nat)
    requires v + carry * p == n && n < p
    ensures carry == 0
  {
    assert carry >= 1 ==> carry * p >= p;
  }
}
