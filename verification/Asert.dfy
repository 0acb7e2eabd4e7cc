/** The absolutely scheduled exponential difficulty adjustment (aserti3-2d): the
    fixed-point target computation, and the unbounded formula it equals. */
module Asert {
  import opened Powers
  import opened Limbs
  import opened Uint256

  const POW47: int := 0x8000_0000_0000
  const POW63: int := 0x8000_0000_0000_0000
  const POW64: int := 0x1_0000_0000_0000_0000

  predicate InInt64(x: int) {
    -POW63 <= x < POW63
  }

  /** C++ integer division rounds toward zero. */
  function TruncDiv(a: int, b: int): int
    requires b > 0
  {
    if a >= 0 then a / b else -(-a / b)
  }

  /** How far behind (positive) or ahead of (negative) schedule a block is. */
  function Lateness(spacing: int, timeDiff: int, heightDiff: int): int {
    timeDiff - spacing * (heightDiff + 1)
  }

  /** The target's binary exponent, in units of 2^-16. */
  function Exponent(lateness: int, halfLife: int): int
    requires halfLife > 0
  {
    TruncDiv(lateness * 65536, halfLife)
  }

  /** The cubic whose top 16 bits approximate 2^(frac / 65536) - 1. */
  function Cubic(frac: nat): nat {
    195766423245049 * frac + 971821376 * frac * frac + 5127 * frac * frac * frac + POW47
  }

  function Factor(frac: nat): nat {
    65536 + Cubic(frac) / 0x1_0000_0000_0000
  }

  /** floor(x * 2^s) for any integer s. */
  function Scaled(x: nat, s: int): nat {
    if s >= 0 then x * Pow2(s) else PowPositive(2, -s); x / Pow2(-s)
  }

  function Clamp(x: nat, limit: nat): nat {
    if x == 0 then 1 else if x > limit then limit else x
  }

  /** The unbounded-integer formula for the next target. */
  function NextTarget(ref: nat, lateness: int, halfLife: int, limit: nat): nat
    requires halfLife > 0
  {
    var e := Exponent(lateness, halfLife);
    Clamp(Scaled(ref * Factor(e % 65536), e / 65536 - 16), limit)
  }

  /** The shift count the source uses: a 64-bit count handed over as a 32-bit one. */
  function Wrapped(shifts: int): int {
    if shifts <= 0 then -(-shifts % BASE) else shifts % BASE
  }

  /** What the source computes. */
  function ReachedTarget(ref: nat, lateness: int, halfLife: int, limit: nat): nat
    requires halfLife > 0
  {
    var e := Exponent(lateness, halfLife);
    Clamp(Scaled(ref * Factor(e % 65536), Wrapped(e / 65536 - 16)), limit)
  }

  // ---- No 64-bit wrap ----

  /** The source scales the lateness by 65536 in a signed 64-bit integer. That
      product is exact if and only if the lateness lies in [-2^47, 2^47). */
  lemma LatenessFits(lateness: int)
    ensures InInt64(lateness * 65536) <==> -POW47 <= lateness < POW47
  {
  }

  /** The source's own assertion bounds timeDiff - spacing * heightDiff, one block
      short of what it then scales: an input that passes it and still leaves the
      64-bit range. */
  lemma AssertionMissesOneSpacing()
    ensures var timeDiff, heightDiff, spacing := 1 - POW47, 0, 120;
            -POW47 < timeDiff - spacing * heightDiff < POW47
            && !InInt64(Lateness(spacing, timeDiff, heightDiff) * 65536)
  {
    LatenessFits(1 - POW47 - 120);
  }

  /** The product of spacing and height is computed on its own first. It can leave the 64-bit
      range although the time difference, and the lateness it is part of, are well inside. */
  lemma ScheduleProductEscapes()
    ensures var timeDiff, heightDiff, spacing := POW63 - 1, POW63 - 1, 1;
            && InInt64(timeDiff) && InInt64(heightDiff)
            && -POW47 <= Lateness(spacing, timeDiff, heightDiff) < POW47
            && !InInt64(spacing * (heightDiff + 1))
  {
  }

  lemma SquareMonotone(f: nat, g: nat)
    requires f <= g
    ensures f * f <= g * g && f * f * f <= g * g * g
  {
    MulMonotone(f, g, f, g);
    MulMonotone(f * f, g * g, f, g);
  }

  lemma CubicMonotone(f: nat, g: nat)
    requires f <= g
    ensures Cubic(f) <= Cubic(g)
  {
    SquareMonotone(f, g);
  }

  /** For a 16-bit fraction the cubic stays below 2^64, so the factor lies in
      [65536, 131071]; it grows with the fraction and is 65536 at zero. */
  lemma FactorRange(frac: nat)
    requires frac < 65536
    ensures Cubic(frac) < POW64
    ensures 65536 <= Factor(frac) <= 131071
  {
    CubicMonotone(frac, 65535);
  }

  lemma FactorMonotone(f: nat, g: nat)
    requires f <= g
    ensures Factor(f) <= Factor(g)
  {
    CubicMonotone(f, g);
  }

  ghost function EighthPower(x: int): int {
    var square := x * x;
    var fourth := square * square;
    fourth * fourth
  }

  /** A factor is 2^(k/8) to within 0.013 percent: its eighth power is 2^k up to that error. */
  ghost predicate Near(f: int, k: nat) {
    EighthPower(99987 * 65536) * Pow2(k) <= EighthPower(f * 100000) <= EighthPower(100013 * 65536) * Pow2(k)
  }

  lemma FactorEighths()
    ensures Factor(0) == 65536 && Factor(8192) == 71475 && Factor(16384) == 77938 && Factor(24576) == 84984
    ensures Factor(32768) == 92674 && Factor(40960) == 101068 && Factor(49152) == 110225 && Factor(57344) == 120207
  {
  }

  /** The cubic approximates a power of two at every eighth to within 0.013 percent. */
  lemma FactorNear(k: nat)
    requires k < 8
    ensures Near(Factor(8192 * k), k)
  {
    FactorEighths();
    FirstNear();
    LastNear();
    hide Factor, Near;
  }

  lemma FirstNear()
    ensures Near(65536, 0) && Near(71475, 1) && Near(77938, 2) && Near(84984, 3)
  {
  }

  lemma LastNear()
    ensures Near(92674, 4) && Near(101068, 5) && Near(110225, 6) && Near(120207, 7)
  {
  }

  lemma QuotientSpan(n: nat, d: int)
    requires d > 0
    ensures 0 <= n / d * d <= n < n / d * d + d
  {
    MulNonneg(n / d, d);
  }

  lemma Multiples(q: int, d: int)
    ensures (q + 1) * d == q * d + d && (-q) * d == -(q * d) && (-q - 1) * d == -(q * d) - d
  {
  }

  lemma Rounds(a: int, d: int, e: int)
    requires d > 0 && e == TruncDiv(a, d)
    ensures if a >= 0 then 0 <= e * d <= a < (e + 1) * d else (e - 1) * d < a <= e * d <= 0
  {
    if a >= 0 {
      QuotientSpan(a, d);
      Multiples(e, d);
    } else {
      QuotientSpan(-a, d);
      Multiples(-a / d, d);
    }
  }

  /** Division rounds the exponent toward zero, and by less than one unit. */
  lemma ExponentRounds(lateness: int, halfLife: int)
    requires halfLife > 0
    ensures var e := Exponent(lateness, halfLife);
            if lateness >= 0 then 0 <= e * halfLife <= lateness * 65536 < (e + 1) * halfLife
            else (e - 1) * halfLife < lateness * 65536 <= e * halfLife <= 0
  {
    hide TruncDiv;
    Rounds(lateness * 65536, halfLife, Exponent(lateness, halfLife));
  }

  // ---- The formula follows the schedule ----

  lemma ScaledMonotone(x: nat, y: nat, s: int)
    requires x <= y
    ensures Scaled(x, s) <= Scaled(y, s)
  {
    if s >= 0 {
      MulMonotone(x, y, Pow2(s), Pow2(s));
    } else {
      PowPositive(2, -s);
      DivMonotone(x, y, Pow2(-s));
    }
  }

  lemma ScaledDown(x: nat, n: nat)
    ensures Pow2(n) > 0 && 0 <= Scaled(x, 0 - n) == x / Pow2(n) <= x
  {
    PowPositive(2, n);
    var p: int := Pow2(n);
    QuotientAtMost(x, p);
  }

  /** Doubling the number is one more power of two, on either side of zero. */
  lemma ScaledDouble(x: nat, s: int)
    ensures Scaled(2 * x, s) == Scaled(x, s + 1)
  {
    if s >= 0 {
      MulAssoc(x, 2, Pow2(s));
    } else {
      PowPositive(2, -s - 1);
      DivDiv(2 * x, 2, Pow2(-s - 1));
      assert Pow2(-s) == 2 * Pow2(-s - 1);
      assert 2 * x / 2 == x;
    }
  }

  lemma {:induction false} ScaledGrows(x: nat, s: int, t: int)
    requires s <= t
    ensures Scaled(x, s) <= Scaled(x, t)
    decreases t - s
  {
    if s < t {
      ScaledDouble(x, s);
      ScaledMonotone(x, 2 * x, s);
      ScaledGrows(x, s + 1, t);
    }
  }

  lemma ExponentMonotone(a: int, b: int, halfLife: int)
    requires halfLife > 0 && a <= b
    ensures Exponent(a, halfLife) <= Exponent(b, halfLife)
  {
    TruncDivMonotone(a * 65536, b * 65536, halfLife);
  }

  lemma TruncDivMonotone(a: int, b: int, d: int)
    requires d > 0 && a <= b
    ensures TruncDiv(a, d) <= TruncDiv(b, d)
  {
    if a >= 0 {
      DivMonotone(a, b, d);
    } else if b < 0 {
      DivMonotone(-b, -a, d);
    } else {
      DivMonotone(0, b, d);
      DivMonotone(0, -a, d);
      DivUnique(0, d, 0, 0);
    }
  }

  /** The target grows with the exponent, also across the step from one power of
      two to the next: the largest factor is below twice the smallest. */
  lemma ScaleByExponent(ref: nat, e1: int, e2: int)
    requires e1 <= e2
    ensures Scaled(ref * Factor(e1 % 65536), e1 / 65536 - 16) <= Scaled(ref * Factor(e2 % 65536), e2 / 65536 - 16)
  {
    var f1, f2, s1, s2 := Factor(e1 % 65536), Factor(e2 % 65536), e1 / 65536 - 16, e2 / 65536 - 16;
    if s1 == s2 {
      FactorMonotone(e1 % 65536, e2 % 65536);
      MulMonotone(ref, ref, f1, f2);
      ScaledMonotone(ref * f1, ref * f2, s1);
    } else {
      FactorRange(e1 % 65536);
      FactorRange(e2 % 65536);
      MulMonotone(ref, ref, f1, 2 * f2);
      assert ref * (2 * f2) == 2 * (ref * f2);
      ScaledMonotone(ref * f1, 2 * (ref * f2), s1);
      ScaledDouble(ref * f2, s1);
      ScaledGrows(ref * f2, s1 + 1, s2);
    }
  }

  /** The later the block, the larger (easier) its target. */
  lemma TargetMonotone(ref: nat, late1: int, late2: int, halfLife: int, limit: nat)
    requires halfLife > 0 && limit > 0 && late1 <= late2
    ensures NextTarget(ref, late1, halfLife, limit) <= NextTarget(ref, late2, halfLife, limit)
  {
    ExponentMonotone(late1, late2, halfLife);
    ScaleByExponent(ref, Exponent(late1, halfLife), Exponent(late2, halfLife));
  }

  /** Monotone in the elapsed time and antitone in the height reached. */
  lemma ScheduleMonotone(ref: nat, spacing: nat, t1: int, t2: int, h1: int, h2: int, halfLife: int, limit: nat)
    requires halfLife > 0 && limit > 0 && t1 <= t2 && h1 >= h2
    ensures NextTarget(ref, Lateness(spacing, t1, h1), halfLife, limit)
         <= NextTarget(ref, Lateness(spacing, t2, h2), halfLife, limit)
  {
    MulNonneg(spacing, h1 - h2);
    MulDistribute(spacing, h2 + 1, h1 - h2);
    TargetMonotone(ref, Lateness(spacing, t1, h1), Lateness(spacing, t2, h2), halfLife, limit);
  }

  /** A block exactly on schedule keeps the reference target. */
  lemma OnSchedule(ref: nat, spacing: int, heightDiff: int, halfLife: int, limit: nat)
    requires halfLife > 0 && 0 < ref <= limit
    ensures NextTarget(ref, Lateness(spacing, spacing * (heightDiff + 1), heightDiff), halfLife, limit) == ref
  {
    assert Exponent(0, halfLife) == 0 by { DivUnique(0, halfLife, 0, 0); }
    Base32();
  }

  /** Every half life behind schedule doubles the target, every one ahead of it halves it. */
  lemma HalfLives(ref: nat, k: int, halfLife: int, limit: nat)
    requires halfLife > 0
    ensures NextTarget(ref, k * halfLife, halfLife, limit) == Clamp(Scaled(ref, k), limit)
  {
    hide Pow;
    var n := if k >= 0 then k else -k;
    assert Exponent(k * halfLife, halfLife) == k * 65536 by {
      MulAssoc(halfLife, n, 65536);
      MulAssoc(halfLife, k, 65536);
      DivUnique(halfLife * (n * 65536), halfLife, n * 65536, 0);
    }
    assert Factor(0) == 65536;
    Base32();
    ScaledShift(ref, 16, k - 16);
  }

  lemma {:induction false} ScaledShift(x: nat, n: nat, s: int)
    ensures Scaled(x * Pow2(n), s) == Scaled(x, s + n)
  {
    if n > 0 {
      ScaledShift(x, n - 1, s + 1);
      MulAssoc(x, 2, Pow2(n - 1));
      MulAssoc(2, x, Pow2(n - 1));
      ScaledDouble(x * Pow2(n - 1), s);
    }
  }

  lemma TargetInRange(ref: nat, lateness: int, halfLife: int, limit: nat)
    requires halfLife > 0 && limit > 0
    ensures 0 < NextTarget(ref, lateness, halfLife, limit) <= limit
  {
  }

  // ---- The computation on 256-bit numbers ----

  /** Shifting left and back recovers the number if and only if nothing was lost. */
  lemma OverflowDetected(x: nat, s: nat)
    requires x < MODULUS
    ensures Pow2(s) > 0
    ensures x * Pow2(s) % MODULUS / Pow2(s) == x <==> x * Pow2(s) < MODULUS
  {
    PowPositive(2, s);
    var p: int := Pow2(s);
    MulNonneg(x, p);
    if x * p < MODULUS {
      ModSmall(x * p, MODULUS);
      DivUnique(x * p, p, x, 0);
    } else {
      WrapShrinks(x * p, x, p);
    }
  }

  lemma WrapShrinks(y: int, x: int, p: int)
    requires p > 0 && y == x * p && y >= MODULUS > 0
    ensures y % MODULUS / p < x
  {
    var r := y % MODULUS;
    var q := r / p;
    assert r < MODULUS <= x * p;
    assert p * q <= r;
    QuotientBelow(p, q, x, r);
  }

  lemma ProductFits(ref: nat, f: nat)
    requires ref < Pow2(236) && f <= 131071
    ensures 0 <= ref * f < MODULUS
  {
    MulNonneg(ref, f);
    ModulusIsPow2();
    Base32();
    PowAdd(2, 236, 20);
    PowAdd(2, 4, 16);
    MulMonotone(ref, Pow2(236), f, 131071);
    PowPositive(2, 236);
  }

  /** With a half life of more than 2^15 seconds every shift count fits 32 bits. */
  lemma ShiftsFit(lateness: int, halfLife: int)
    requires halfLife > 0x8000 && -POW47 <= lateness < POW47
    ensures 0 - BASE < Exponent(lateness, halfLife) / 65536 - 16 < BASE
    ensures var shifts := Exponent(lateness, halfLife) / 65536 - 16; Wrapped(shifts) == shifts
  {
    var n := if lateness >= 0 then lateness * 65536 else -(lateness * 65536);
    QuotientFits(n, halfLife);
    CountFits(n / halfLife);
  }

  lemma QuotientFits(n: int, halfLife: int)
    requires 0 <= n <= POW63 && halfLife > 0x8000
    ensures 0 <= 0x8001 * (n / halfLife) <= POW63
  {
    QuotientAtMost(n, halfLife);
    MulMonotone(0x8001, halfLife, n / halfLife, n / halfLife);
    assert halfLife * (n / halfLife) <= n;
  }

  lemma CountFits(q: int)
    requires 0 <= 0x8001 * q <= POW63
    ensures q / 65536 - 16 < BASE && 0 - BASE < -q / 65536 - 16
    ensures Wrapped(q / 65536 - 16) == q / 65536 - 16 && Wrapped(-q / 65536 - 16) == -q / 65536 - 16
  {
  }

  /** Less than that is not enough: this far ahead of schedule the count wraps to 16, and the
      reference target itself comes out. */
  lemma CountWraps(ref: nat, halfLife: int, limit: nat)
    requires 0 < halfLife <= 0x8000 && 0 < ref <= limit < Pow2(236)
    ensures var lateness := 0 - BASE * halfLife;
            && -POW47 <= lateness < POW47
            && ReachedTarget(ref, lateness, halfLife, limit) == ref
            && NextTarget(ref, lateness, halfLife, limit) == 1
  {
    var lateness := 0 - BASE * halfLife;
    var e := Exponent(lateness, halfLife);
    assert -(lateness * 65536) == halfLife * (BASE * 65536) + 0;
    DivUnique(-(lateness * 65536), halfLife, BASE * 65536, 0);
    assert e == 0 - BASE * 65536 && e % 65536 == 0 && e / 65536 - 16 == -(BASE + 16) && Wrapped(-(BASE + 16)) == -16;
    assert Factor(0) == 65536;
    Base32();
    TinyTarget(ref, BASE + 16);
  }

  lemma TinyTarget(ref: nat, n: nat)
    requires ref < Pow2(236) && n >= 252
    ensures Scaled(ref * 65536, 0 - n) == 0
    ensures Scaled(ref * 65536, -16) == ref
  {
    hide Pow;
    PowPositive(2, n);
    PowMonotoneExp(2, 252, n);
    PowAdd(2, 236, 16);
    Base32();
    MulNonneg(ref, 65536);
    var p: int := Pow2(n);
    DivUnique(ref * 65536, p, 0, ref * 65536);
    PowPositive(2, 16);
    DivUnique(ref * 65536, Pow2(16), ref, 0);
  }

  /** The source computes the formula at every lateness it admits if and only if the half life
      exceeds 2^15 seconds. */
  lemma HalfLifeBound(ref: nat, halfLife: int, limit: nat)
    requires halfLife > 0 && 1 < ref <= limit < Pow2(236)
    ensures (forall lateness :: -POW47 <= lateness < POW47 ==>
               ReachedTarget(ref, lateness, halfLife, limit) == NextTarget(ref, lateness, halfLife, limit))
            <==> halfLife > 0x8000
  {
    hide Pow, Scaled, Exponent, Factor;
    if halfLife > 0x8000 {
      forall lateness | -POW47 <= lateness < POW47
        ensures ReachedTarget(ref, lateness, halfLife, limit) == NextTarget(ref, lateness, halfLife, limit)
      {
        ShiftsFit(lateness, halfLife);
      }
    } else {
      CountWraps(ref, halfLife, limit);
    }
  }

  /** CalculateASERT. The source demands what the first four `requires` say; the
      fifth is what keeps its 64-bit product exact (see LatenessFits). */
  method CalculateASERT(refTarget: BaseUint, nPowTargetSpacing: int, nTimeDiff: int, nHeightDiff: int,
                        powLimit: BaseUint, nHalfLife: int)
    returns (nextTarget: BaseUint)
    requires refTarget.Valid() && powLimit.Valid() && nHalfLife > 0
    requires 0 < refTarget.Value() <= powLimit.Value()
    requires powLimit.Value() < Pow2(236)
    requires nHeightDiff >= 0
    requires -POW47 <= Lateness(nPowTargetSpacing, nTimeDiff, nHeightDiff) < POW47
    ensures nextTarget.Valid() && fresh(nextTarget) && fresh(nextTarget.pn)
    ensures var late := Lateness(nPowTargetSpacing, nTimeDiff, nHeightDiff);
            && nextTarget.Value() == ReachedTarget(refTarget.Value(), late, nHalfLife, powLimit.Value())
            && (nHalfLife > 0x8000 ==>
                  nextTarget.Value() == NextTarget(refTarget.Value(), late, nHalfLife, powLimit.Value()))
  {
    ghost var lateness := Lateness(nPowTargetSpacing, nTimeDiff, nHeightDiff);
    var factor, shifts := FixedPoint(nTimeDiff - nPowTargetSpacing * (nHeightDiff + 1), nHalfLife);
    ghost var x := refTarget.Value() * factor;
    if nHalfLife > 0x8000 {
      ShiftsFit(lateness, nHalfLife);
    }
    ProductFits(refTarget.Value(), factor);
    ModSmall(x, MODULUS);
    nextTarget := new BaseUint.Copy(refTarget);
    nextTarget.MulAssign32(factor);
    MulGrows(refTarget.Value(), factor);
    nextTarget := ShiftTarget(nextTarget, shifts, powLimit);
    ClampOverflow(Scaled(x, Wrapped(shifts)), powLimit.Value());
    nextTarget := ClampTarget(nextTarget, powLimit);
  }

  lemma ClampOverflow(y: nat, limit: nat)
    requires 0 < limit < Pow2(236)
    ensures y >= MODULUS ==> Clamp(y, limit) == limit == Clamp(limit, limit)
  {
    ModulusIsPow2();
    PowMonotoneExp(2, 236, 256);
  }

  /** The 64-bit fixed-point part: multiplier and binary exponent. */
  method FixedPoint(lateness: int, nHalfLife: int) returns (factor: Limb, shifts: int)
    requires nHalfLife > 0 && -POW47 <= lateness < POW47
    ensures factor == Factor(Exponent(lateness, nHalfLife) % 65536) && 65536 <= factor <= 131071
    ensures shifts == Exponent(lateness, nHalfLife) / 65536 - 16 && InInt64(shifts)
  {
    LatenessFits(lateness);
    var product := lateness * 65536;
    var exponent := TruncDiv(product, nHalfLife);
    ExponentRounds(lateness, nHalfLife);
    ghost var n: int := if product >= 0 then product else -product;
    QuotientAtMost(n, nHalfLife);
    assert InInt64(exponent);
    var frac := exponent % 65536;
    FactorRange(frac);
    var cubic := 195766423245049 * frac + 971821376 * frac * frac + 5127 * frac * frac * frac + POW47;
    assert cubic == Cubic(frac) < POW64;
    factor := 65536 + cubic / 0x1_0000_0000_0000;
    shifts := exponent / 65536 - 16;
  }

  /** Multiplying by 2^shifts, with the overflow branch of the source: a product
      of 256 bits or more is replaced by the limit it exceeds. The shift operators of the
      256-bit numbers take a 32-bit count. */
  method ShiftTarget(x: BaseUint, shifts: int, powLimit: BaseUint) returns (r: BaseUint)
    requires x.Valid() && powLimit.Valid() && x.Value() > 0
    ensures r.Valid() && fresh(r) && fresh(r.pn)
    ensures var y := Scaled(x.Value(), Wrapped(shifts));
            r.Value() == if y < MODULUS then y else powLimit.Value()
  {
    ValBound(x.pn[..]);
    hide Pow, Val;
    r := new BaseUint.Copy(x);
    if shifts <= 0 {
      var n := -shifts % BASE;
      ScaledDown(x.Value(), n);
      r.ShiftRight(n);
    } else {
      var n := shifts % BASE;
      OverflowDetected(x.Value(), n);
      MulNonneg(x.Value(), Pow2(n));
      var shifted := new BaseUint.Copy(x);
      shifted.ShiftLeft(n);
      var back := new BaseUint.Copy(shifted);
      back.ShiftRight(n);
      var same := back.Equals(r);
      if !same {
        r := new BaseUint.Copy(powLimit);
      } else {
        ModSmall(x.Value() * Pow2(n), MODULUS);
        r := shifted;
      }
    }
  }

  /** Zero is not a valid target, and neither is anything above the limit. */
  method ClampTarget(x: BaseUint, powLimit: BaseUint) returns (r: BaseUint)
    requires x.Valid() && powLimit.Valid()
    ensures r.Valid() && fresh(r) && fresh(r.pn)
    ensures r.Value() == Clamp(x.Value(), powLimit.Value())
  {
    PowPositive(2, 64);
    var zero := x.EqualTo(0);
    r := new BaseUint.Copy(x);
    if zero {
      PowMonotoneExp(2, 1, 64);
      r.Assign(1);
    } else {
      var c := x.CompareTo(powLimit);
      if c > 0 {
        r := new BaseUint.Copy(powLimit);
      }
    }
  }
}
