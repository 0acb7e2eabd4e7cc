/** How far skip pointers take a walk: the ancestor of a block is reached in a number of steps
    that grows with the square of the number of digits of its height only. */
module Skips {
  import opened Powers
  import opened Blocks

  /** The steps within a stretch of 2^k heights. */
  ghost function Within(k: nat): nat {
    if k == 0 then 0 else Within(k - 1) + k / 2 + 2
  }

  lemma {:induction false} WithinGrows(j: nat, k: nat)
    requires j <= k
    ensures Within(j) <= Within(k)
  {
    if j < k {
      WithinGrows(j, k - 1);
    }
  }

  lemma {:induction false} WithinIs(k: nat)
    ensures 4 * Within(k) <= k * k + 9 * k
  {
    if k > 0 {
      WithinIs(k - 1);
      assert (k - 1) * (k - 1) == k * k - 2 * k + 1;
    }
  }

  // ---- Lowest set bits ----

  /** n is an odd multiple of 2^j. */
  ghost predicate OddMultiple(n: nat, j: nat, x: nat) {
    n == Pow2(j) * (2 * x + 1)
  }

  /** An odd multiple of 2^j has 2^j as its lowest set bit. */
  lemma {:induction false} LowestAt(n: nat, j: nat, x: nat)
    requires OddMultiple(n, j, x)
    ensures n > 0 && LowestPower(n) == Pow2(j) && InvertLowestOne(n) == n - Pow2(j)
  {
    PowPositive(2, j);
    MulGrows(Pow2(j), 2 * x + 1);
    LowestIs(n, j, x);
    InvertIs(n);
  }

  lemma {:induction false} LowestIs(n: nat, j: nat, x: nat)
    requires OddMultiple(n, j, x) && n > 0
    ensures LowestPower(n) == Pow2(j)
  {
    if j > 0 {
      var half := Pow2(j - 1) * (2 * x + 1);
      MulAssoc(2, Pow2(j - 1), 2 * x + 1);
      assert n == 2 * half;
      LowestIs(half, j - 1, x);
    }
  }

  /** Every number but zero is an odd multiple of some power of two. */
  lemma {:induction false} LowestOf(n: nat) returns (j: nat, x: nat)
    requires n > 0
    ensures OddMultiple(n, j, x)
  {
    if n % 2 == 1 {
      j, x := 0, n / 2;
    } else {
      j, x := LowestOf(n / 2);
      MulAssoc(2, Pow2(j), 2 * x + 1);
      j := j + 1;
    }
  }

  lemma InvertAtMost(n: nat)
    ensures InvertLowestOne(n) <= n && (n > 0 ==> InvertLowestOne(n) < n)
  {
  }

  // ---- One step ----

  lemma LowestTwo(n: nat, z: nat)
    requires n == 4 * z + 2
    ensures InvertLowestOne(n) == 4 * z
  {
    hide InvertLowestOne;
    InvertIs(n);
    assert n / 2 == 2 * z + 1;
  }

  lemma LowestFour(n: nat, z: nat)
    requires n == 8 * z + 4
    ensures InvertLowestOne(n) == 8 * z
  {
    hide InvertLowestOne;
    InvertIs(n);
    assert n / 2 == 4 * z + 2 && (4 * z + 2) / 2 == 2 * z + 1;
    assert LowestPower(4 * z + 2) == 2;
  }

  lemma LowestEight(n: nat, z: nat)
    requires n == 8 * z && z > 0
    ensures InvertLowestOne(n) <= n - 8
  {
    hide InvertLowestOne;
    InvertIs(n);
    assert LowestPower(2 * z) == 2 * LowestPower(z) >= 2;
    assert LowestPower(4 * z) == 2 * LowestPower(2 * z) >= 4;
    assert LowestPower(8 * z) == 2 * LowestPower(4 * z) >= 8;
  }

  lemma OddSkip(h: nat, w: nat)
    requires h == 2 * w + 1 && w >= 1
    ensures GetSkipHeight(h) == InvertLowestOne(InvertLowestOne(h - 1)) + 1
  {
    hide InvertLowestOne;
  }

  lemma EvenSkip(e: nat, w: nat)
    requires e == 2 * w && w >= 1
    ensures GetSkipHeight(e) == InvertLowestOne(e)
  {
    hide InvertLowestOne;
  }

  /** From an odd height the skip is taken unless it overshoots. */
  lemma OddStep(h: nat, t: nat)
    requires h % 2 == 1 && h >= 3 && t < h
    ensures var s := InvertLowestOne(InvertLowestOne(h - 1)) + 1;
            s < h && SkipNext(h, t) == if s >= t then s else h - 1
  {
    var w := h / 2;
    OddSkip(h, w);
    EvenSkip(h - 1, w);
    InvertAtMost(h - 1);
    InvertAtMost(InvertLowestOne(h - 1));
    hide InvertLowestOne, GetSkipHeight;
  }

  lemma BeforeTwo(e: nat, z: nat)
    requires e == 4 * z + 2 && z >= 1
    ensures GetSkipHeight(e - 1) <= InvertLowestOne(InvertLowestOne(e)) + 1
  {
    OddSkip(e - 1, 2 * z);
    LowestTwo(e, z);
    InvertAtMost(InvertLowestOne(4 * z));
    hide InvertLowestOne, GetSkipHeight;
  }

  lemma BeforeFour(e: nat, z: nat)
    requires e == 8 * z + 4
    ensures GetSkipHeight(e - 1) <= InvertLowestOne(InvertLowestOne(e)) + 1
  {
    OddSkip(e - 1, 4 * z + 1);
    LowestTwo(e - 2, 2 * z);
    LowestFour(e, z);
    hide InvertLowestOne, GetSkipHeight;
  }

  lemma BeforeEight(e: nat, z: nat)
    requires e == 8 * z && z >= 1
    ensures GetSkipHeight(e - 1) >= InvertLowestOne(e)
  {
    OddSkip(e - 1, 4 * z - 1);
    LowestTwo(e - 2, 2 * z - 1);
    LowestFour(e - 4, z - 1);
    LowestEight(e, z);
    hide InvertLowestOne, GetSkipHeight;
  }

  /** Where the skip pointer right before an even height leads. */
  lemma SkipBefore(e: nat)
    requires e % 2 == 0 && e >= 4
    ensures GetSkipHeight(e - 1) <= InvertLowestOne(InvertLowestOne(e)) + 1
            || GetSkipHeight(e - 1) >= InvertLowestOne(e)
  {
    hide InvertLowestOne, GetSkipHeight;
    var z, r := e / 8, e % 8;
    if r == 2 {
      BeforeTwo(e, 2 * z);
    } else if r == 6 {
      BeforeTwo(e, 2 * z + 1);
    } else if r == 4 {
      BeforeFour(e, z);
    } else {
      BeforeEight(e, z);
    }
  }

  /** From an even height that two skips in a row would overshoot, a skip is taken unless it
      overshoots itself. */
  lemma EvenStep(e: nat, t: nat)
    requires e % 2 == 0 && e >= 2 && InvertLowestOne(InvertLowestOne(e)) + 2 <= t < e
    ensures SkipNext(e, t) == if InvertLowestOne(e) >= t then InvertLowestOne(e) else e - 1
  {
    if e >= 4 {
      SkipBefore(e);
    }
    InvertAtMost(e);
    hide InvertLowestOne;
  }

  lemma EvenMultiple(e: nat, j: nat, x: nat)
    requires j >= 1 && OddMultiple(e, j, x)
    ensures e % 2 == 0 && e == 2 * (Pow2(j - 1) * (2 * x + 1))
  {
    MulAssoc(2, Pow2(j - 1), 2 * x + 1);
  }

  // ---- Within a stretch ----

  ghost function Multiple(m: nat, k: nat): nat {
    m * Pow2(k)
  }

  lemma Doubles(j: nat)
    ensures Pow2(j) > 0 && Pow2(j + 1) == 2 * Pow2(j) && Pow2(1) == 2
  {
    PowPositive(2, j);
    PowNext(2, j);
    PowNext(2, 0);
  }

  lemma Below(m: nat, k: nat)
    requires m >= 1
    ensures Multiple(m - 1, k) == Multiple(m, k) - Pow2(k)
  {
    hide Pow;
    Predecessor(m, Pow2(k));
  }

  /** A height just below a multiple of a power of two, as a lowest set bit. */
  lemma JustBelow(m: nat, k: nat, j: nat)
    requires m >= 1 && j < k
    ensures m * Pow2(k - j - 1) >= 1 && Multiple(m, k) >= Pow2(j)
    ensures OddMultiple(Multiple(m, k) - Pow2(j), j, m * Pow2(k - j - 1) - 1)
  {
    hide Pow;
    PowPositive(2, k - j - 1);
    MulGrows(Pow2(k - j - 1), m);
    PowAdd(2, j, k - j);
    PowNext(2, k - j - 1);
    var p: int, r: int, m': int := Pow2(j), Pow2(k - j - 1), m;
    PowPositive(2, j);
    Regroup(m', p, r);
    MulNonneg(p, 2 * (m * r - 1) + 1);
  }

  lemma Regroup(m: int, p: int, r: int)
    ensures m * (p * (2 * r)) - p == p * (2 * (m * r - 1) + 1)
  {
    MulAssoc(m, p, 2 * r);
    MulAssoc(p, m, 2 * r);
    assert m * p == p * m;
    assert m * (2 * r) == 2 * (m * r);
    MulDistribute(p, 2 * (m * r), -1);
  }

  /** The two lowest set bits of a height just below a multiple of 2^k, both below 2^k. */
  lemma TwoLowest(m: nat, k: nat, j: nat) returns (x: nat, x2: nat)
    requires m >= 1 && 1 <= j < k
    ensures Multiple(m, k) > Pow2(j) && Pow2(j) >= 2 && Pow2(j + 1) == 2 * Pow2(j) && Pow2(j + 2) == 4 * Pow2(j)
    ensures OddMultiple(Multiple(m, k) - Pow2(j), j, x) && (Multiple(m, k) - Pow2(j)) % 2 == 0
    ensures InvertLowestOne(Multiple(m, k) - Pow2(j)) == Multiple(m, k) - Pow2(j + 1)
    ensures j + 1 < k ==> OddMultiple(Multiple(m, k) - Pow2(j + 1), j + 1, x2)
    ensures j + 1 < k ==> InvertLowestOne(Multiple(m, k) - Pow2(j + 1)) == Multiple(m, k) - Pow2(j + 2)
  {
    hide Multiple, InvertLowestOne;
    JustBelow(m, k, j);
    x, x2 := m * Pow2(k - j - 1) - 1, 0;
    hide OddMultiple, Pow, Pow2;
    LowestAt(Multiple(m, k) - Pow2(j), j, x);
    EvenMultiple(Multiple(m, k) - Pow2(j), j, x);
    Doubles(j - 1);
    Doubles(j);
    Doubles(j + 1);
    if j + 1 < k {
      JustBelow(m, k, j + 1);
      x2 := m * Pow2(k - j - 2) - 1;
      LowestAt(Multiple(m, k) - Pow2(j + 1), j + 1, x2);
    }
  }

  /** From just below a multiple of 2^k, and after i skips from there, to any height in the
      stretch below it. */
  lemma {:induction false} OddWalk(m: nat, k: nat, i: nat, t: nat)
    requires m >= 1 && 2 * i + 1 <= k
    requires Multiple(m - 1, k) < t <= Multiple(m, k) - Pow2(2 * i + 1) + 1
    ensures SkipSteps(Multiple(m, k) - Pow2(2 * i + 1) + 1, t) + i <= Within(k)
    decreases k, 2, k - i
  {
    hide Pow2, Multiple, OddMultiple, InvertLowestOne, SkipNext;
    var j := 2 * i + 1;
    var h := Multiple(m, k) - Pow2(j) + 1;
    if t < h {
      Below(m, k);
      assert j < k;
      var x, x2 := TwoLowest(m, k, j);
      var e := h - 1;
      OddStep(h, t);
      InvertAtMost(InvertLowestOne(e));
      if InvertLowestOne(InvertLowestOne(e)) + 1 < t {
        AfterOdd(e, t, j, x, j + 1, x2, k);
      } else if j + 1 < k {
        OddWalk(m, k, i + 1, t);
      }
    }
  }

  lemma Predecessor(m: int, p: int)
    ensures (m - 1) * p == m * p - p
  {
  }

  /** From an even height that two skips in a row would overshoot: at most one skip and one
      step back lead to just below a multiple of a smaller power of two. */
  lemma AfterOdd(e: nat, t: nat, j: nat, x: nat, j2: nat, x2: nat, k: nat)
    requires 1 <= j < k && OddMultiple(e, j, x)
    requires InvertLowestOne(InvertLowestOne(e)) + 2 <= t <= e
    requires t <= InvertLowestOne(e) ==> 1 <= j2 < k && OddMultiple(InvertLowestOne(e), j2, x2)
    ensures SkipSteps(e, t) <= 2 + Within(k - 1)
    decreases k, 1, 0
  {
    hide Pow2, OddMultiple, InvertLowestOne, SkipNext, Within;
    if t < e {
      EvenMultiple(e, j, x);
      EvenStep(e, t);
      LowestAt(e, j, x);
      if t <= InvertLowestOne(e) {
        var y := InvertLowestOne(e);
        EvenMultiple(y, j2, x2);
        if t < y {
          InvertAtMost(y);
          BelowMultiple(y, t, j2, x2);
          WithinGrows(j2, k - 1);
        }
      } else {
        BelowMultiple(e, t, j, x);
        WithinGrows(j, k - 1);
      }
    }
  }

  /** From an even height, one step back, to any height its own skip overshoots. */
  lemma BelowMultiple(y: nat, t: nat, j: nat, x: nat)
    requires j >= 1 && OddMultiple(y, j, x) && InvertLowestOne(y) < t < y
    ensures SkipSteps(y - 1, t) <= Within(j) && SkipNext(y, t) == y - 1
    decreases j, 3, 0
  {
    LowestAt(y, j, x);
    EvenMultiple(y, j, x);
    StepBack(y, t);
    Stretch(y, j, x);
    hide Pow2, Multiple, OddMultiple, InvertLowestOne, SkipNext, SkipSteps;
    OddWalk(2 * x + 1, j, 0, t);
  }

  lemma StepBack(y: nat, t: nat)
    requires y % 2 == 0 && y >= 2 && InvertLowestOne(y) < t < y
    ensures SkipNext(y, t) == y - 1
  {
  }

  lemma Stretch(y: nat, j: nat, x: nat)
    requires j >= 1 && OddMultiple(y, j, x)
    ensures Pow2(1) == 2 && Multiple(2 * x + 1, j) == y && Multiple(2 * x, j) == y - Pow2(j)
  {
    assert Pow(2, 0) == 1;
    hide Pow;
    Predecessor(2 * x + 1, Pow2(j));
  }

  // ---- From anywhere ----

  lemma NextLowest(j: nat, x: nat) returns (j': nat, x': nat)
    requires x > 0
    ensures OddMultiple(Pow2(j + 1) * x, j', x') && j' > j
  {
    var a;
    a, x' := LowestOf(x);
    j' := j + 1 + a;
    PowAdd(2, j + 1, a);
    MulAssoc(Pow2(j + 1), Pow2(a), 2 * x' + 1);
  }

  lemma Cleared(n: nat, j: nat, x: nat)
    requires OddMultiple(n, j, x)
    ensures InvertLowestOne(n) == Pow2(j + 1) * x
  {
    LowestAt(n, j, x);
    MulDistribute(Pow2(j), 2 * x, 1);
    MulAssoc(Pow2(j), 2, x);
  }

  lemma ExponentBelow(n: nat, j: nat, x: nat, L: nat)
    requires OddMultiple(n, j, x) && n < Pow2(L)
    ensures j < L
  {
    MulGrows(Pow2(j), 2 * x + 1);
    if j >= L {
      PowMonotoneExp(2, L, j);
    }
  }

  /** From an odd height: skips that clear two bits each, then at most a stretch. */
  lemma {:induction false} OddPhase(h: nat, t: nat, j: nat, x: nat, L: nat)
    requires h >= 1 && OddMultiple(h - 1, j, x) && h - 1 < Pow2(L) && j >= 1 && t <= h
    ensures j < L && SkipSteps(h, t) + j <= L + 3 + Within(L)
    decreases h
  {
    hide Pow2, OddMultiple, InvertLowestOne, SkipNext, Within;
    ExponentBelow(h - 1, j, x, L);
    if t < h {
      var e := h - 1;
      EvenMultiple(e, j, x);
      LowestAt(e, j, x);
      OddStep(h, t);
      Cleared(e, j, x);
      var s := InvertLowestOne(InvertLowestOne(e)) + 1;
      if s >= t {
        if s == 1 {
          AtOne(t);
        } else {
          var j2, x2 := NextLowest(j, x);
          Cleared(InvertLowestOne(e), j2, x2);
          var j3, x3 := NextLowest(j2, x2);
          OddPhase(s, t, j3, x3, L);
        }
      } else {
        var j2, x2 := j, x;
        if x > 0 {
          j2, x2 := NextLowest(j, x);
          LowestAt(InvertLowestOne(e), j2, x2);
          ExponentBelow(InvertLowestOne(e), j2, x2, L);
        }
        AfterOdd(e, t, j, x, j2, x2, L);
        WithinGrows(L - 1, L);
      }
    }
  }

  lemma AtOne(t: nat)
    requires t <= 1
    ensures SkipSteps(1, t) <= 1
  {
  }

  /** From an even height: skips that clear one bit each, then at most a stretch or a walk
      from an odd height. */
  lemma {:induction false} EvenPhase(h: nat, t: nat, j: nat, x: nat, L: nat)
    requires OddMultiple(h, j, x) && h < Pow2(L) && j >= 1 && t <= h
    ensures j < L && SkipSteps(h, t) + j <= 2 * L + 4 + Within(L)
    decreases h
  {
    hide Pow2, OddMultiple, InvertLowestOne, SkipNext, Within;
    ExponentBelow(h, j, x, L);
    if t < h {
      EvenMultiple(h, j, x);
      LowestAt(h, j, x);
      Cleared(h, j, x);
      EvenChoice(h, t);
      var s := InvertLowestOne(h);
      if SkipNext(h, t) == s && s > t {
        var j2, x2 := NextLowest(j, x);
        EvenPhase(s, t, j2, x2, L);
      } else if s < t {
        BelowMultipleOrSame(h, t, j, x);
        WithinGrows(j, L);
      } else if SkipNext(h, t) == h - 1 {
        FromOdd(h - 1, t, L);
      }
    }
  }

  lemma EvenChoice(h: nat, t: nat)
    requires h % 2 == 0 && h >= 2 && t < h
    ensures SkipNext(h, t) == h - 1 || (SkipNext(h, t) == InvertLowestOne(h) && InvertLowestOne(h) >= t)
  {
    hide InvertLowestOne;
  }

  lemma BelowMultipleOrSame(y: nat, t: nat, j: nat, x: nat)
    requires j >= 1 && OddMultiple(y, j, x) && InvertLowestOne(y) < t < y
    ensures SkipSteps(y, t) <= 1 + Within(j)
  {
    BelowMultiple(y, t, j, x);
  }

  lemma FromOdd(h: nat, t: nat, L: nat)
    requires h % 2 == 1 && t <= h < Pow2(L)
    ensures SkipSteps(h, t) <= L + 2 + Within(L)
  {
    if h == 1 {
      AtOne(t);
      assert L > 0;
    } else {
      var j, x := LowestOf(h - 1);
      assert Pow2(0) == 1;
      OddPhase(h, t, j, x, L);
    }
  }

  /** The walk from a height of L binary digits to any lower one takes at most
      (L^2 + 17 L) / 4 + 4 steps. */
  lemma SkipsAreFew(h: nat, t: nat, L: nat)
    requires t <= h < Pow2(L)
    ensures 4 * SkipSteps(h, t) <= L * L + 17 * L + 16
  {
    WithinIs(L);
    if h % 2 == 1 {
      FromOdd(h, t, L);
    } else if h > 0 {
      var j, x := LowestOf(h);
      assert Pow2(0) == 1;
      EvenPhase(h, t, j, x, L);
    }
  }
}
