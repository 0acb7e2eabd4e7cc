/** The 32-bit "compact" floating representation of difficulty targets: a byte
    count, a sign bit and a 23-bit mantissa. */
module Compact {
  import opened Powers
  import opened Bits
  import opened Limbs
  import opened Uint256

  type Word = x: nat | x < 0x1_0000_0000

  /** 2^23, the first mantissa that does not fit, and 2^24, the weight of a byte count. */
  const MANTISSA: nat := 0x80_0000
  const EXPONENT: nat := 0x100_0000

  function DropBytes(v: nat, n: nat): nat {
    PowPositive(256, n);
    v / Pow(256, n)
  }

  /** The mantissa of a compact word, after the down shift of short encodings. */
  function Significand(w: Word): nat {
    if w / EXPONENT <= 3 then DropBytes(w % MANTISSA, 3 - w / EXPONENT) else w % MANTISSA
  }

  /** The exact natural number a compact word denotes, sign aside and unbounded. */
  function Decoded(w: Word): nat {
    if w / EXPONENT <= 3 then Significand(w) else Significand(w) * Pow(256, w / EXPONENT - 3)
  }

  predicate Negative(w: Word) {
    Significand(w) != 0 && w / MANTISSA % 2 == 1
  }

  /** How many bytes a number takes. */
  function ByteSize(v: nat): nat {
    if v == 0 then 0 else 1 + ByteSize(v / 256)
  }

  /** The mantissa and byte count before the sign bit is kept free ... */
  function RawMantissa(v: nat): nat {
    if ByteSize(v) <= 3 then v * Pow(256, 3 - ByteSize(v)) else DropBytes(v, ByteSize(v) - 3)
  }

  /** ... the mantissa that is kept, one byte shorter when it would set the sign bit ... */
  function KeptMantissa(v: nat): nat {
    if RawMantissa(v) >= MANTISSA then RawMantissa(v) / 256 else RawMantissa(v)
  }

  function KeptSize(v: nat): nat {
    if RawMantissa(v) >= MANTISSA then ByteSize(v) + 1 else ByteSize(v)
  }

  /** ... and the compact word of a number. */
  function Encoded(v: nat): nat {
    KeptMantissa(v) + KeptSize(v) * EXPONENT
  }

  /** How many low bytes the compact form of v gives up. */
  function Excess(v: nat): nat {
    if v < MANTISSA then 0 else 1 + Excess(v / 256)
  }

  /** v with those bytes cleared. */
  function Truncated(v: nat): nat {
    DropBytes(v, Excess(v)) * Pow(256, Excess(v))
  }

  // ---- Truncation ----

  lemma DropSucc(v: nat, n: nat)
    ensures DropBytes(v, n + 1) == DropBytes(v / 256, n) == DropBytes(v, n) / 256
  {
    PowPositive(256, n);
    DivDiv(v, 256, Pow(256, n));
    DivDiv(v, Pow(256, n), 256);
  }

  lemma DropBound(v: nat, n: nat)
    ensures DropBytes(v, n) * Pow(256, n) <= v < DropBytes(v, n) * Pow(256, n) + Pow(256, n)
  {
    PowPositive(256, n);
    assert v == Pow(256, n) * (v / Pow(256, n)) + v % Pow(256, n);
  }

  /** The kept mantissa fits 23 bits, and has at least 16 once bytes were dropped. */
  lemma {:induction false} ExcessMantissa(v: nat)
    ensures DropBytes(v, Excess(v)) < MANTISSA
    ensures Excess(v) > 0 ==> DropBytes(v, Excess(v)) >= 0x8000
    ensures v < MANTISSA ==> DropBytes(v, Excess(v)) == v
  {
    if v >= MANTISSA {
      DropSucc(v, Excess(v) - 1);
      ExcessMantissa(v / 256);
      assert v / 256 >= 0x8000;
    }
  }

  /** That bound pins the number of dropped bytes down. */
  lemma {:induction false} ExcessUnique(v: nat, e: nat)
    requires DropBytes(v, e) < MANTISSA && (e > 0 ==> DropBytes(v, e) >= 0x8000)
    ensures Excess(v) == e
    decreases v
  {
    if e > 0 {
      DropSucc(v, e - 1);
      DropBound(v / 256, e - 1);
      PowPositive(256, e - 1);
      MulMonotone(DropBytes(v / 256, e - 1), DropBytes(v / 256, e - 1), 1, Pow(256, e - 1));
      assert v / 256 >= 0x8000;
      ExcessUnique(v / 256, e - 1);
    } else {
      assert DropBytes(v, 0) == v;
    }
  }

  lemma {:induction false} ExcessMonotone(x: nat, y: nat)
    requires x <= y
    ensures Excess(x) <= Excess(y)
    decreases y
  {
    if x >= MANTISSA {
      ExcessMonotone(x / 256, y / 256);
    }
  }

  /** Truncation loses less than one part in 2^15, and nothing from short numbers. */
  lemma TruncatedError(v: nat)
    ensures Truncated(v) <= v
    ensures v > 0 ==> (v - Truncated(v)) * 0x8000 < v
  {
    var e := Excess(v);
    DropBound(v, e);
    ExcessMantissa(v);
    if e > 0 {
      var m, p := DropBytes(v, e), Pow(256, e);
      MulMonotone(0x8000, m, p, p);
    }
  }

  lemma TruncatedMonotone(x: nat, y: nat)
    requires x <= y
    ensures Truncated(x) <= Truncated(y)
  {
    ExcessMonotone(x, y);
    var ex, ey := Excess(x), Excess(y);
    ExcessMantissa(x);
    ExcessMantissa(y);
    if ex == ey {
      PowPositive(256, ex);
      DivMonotone(x, y, Pow(256, ex));
      MulMonotone(DropBytes(x, ex), DropBytes(y, ex), Pow(256, ex), Pow(256, ex));
    } else {
      PowMonotoneExp(256, ex + 1, ey);
      MulMonotone(DropBytes(x, ex), MANTISSA, Pow(256, ex), Pow(256, ex));
      MulMonotone(0x8000, DropBytes(y, ey), Pow(256, ex + 1), Pow(256, ey));
    }
  }

  /** Truncating twice is truncating once. */
  lemma TruncatedStable(v: nat)
    ensures Excess(Truncated(v)) == Excess(v)
    ensures DropBytes(Truncated(v), Excess(v)) == DropBytes(v, Excess(v))
  {
    var e := Excess(v);
    PowPositive(256, e);
    DivUnique(Truncated(v), Pow(256, e), DropBytes(v, e), 0);
    ExcessMantissa(v);
    ExcessUnique(Truncated(v), e);
  }

  // ---- What the compact word of a number denotes ----

  lemma SmallPowers()
    ensures Pow(256, 0) == 1 && Pow(256, 1) == 0x100 && Pow(256, 2) == 0x1_0000 && Pow(256, 3) == 0x100_0000
  {
  }

  lemma {:induction false} ByteSizeIs(v: nat, n: nat)
    requires n > 0 && Pow(256, n - 1) <= v < Pow(256, n)
    ensures ByteSize(v) == n
  {
    PowPositive(256, n - 1);
    if n > 1 {
      assert Pow(256, n) == 256 * Pow(256, n - 1) && Pow(256, n - 1) == 256 * Pow(256, n - 2);
      ByteSizeIs(v / 256, n - 1);
    } else {
      SmallPowers();
    }
  }

  /** A word put together from a mantissa and a byte count comes apart again. */
  lemma WordParts(m: nat, size: nat)
    requires m < MANTISSA && size < 256
    ensures m + size * EXPONENT < 0x1_0000_0000
    ensures (m + size * EXPONENT) / EXPONENT == size
    ensures (m + size * EXPONENT) % MANTISSA == m && (m + size * EXPONENT) / MANTISSA % 2 == 0
  {
    DivUnique(m + size * EXPONENT, MANTISSA, 2 * size, m);
  }

  lemma EncodedSmall(v: nat)
    requires v < MANTISSA
    ensures Encoded(v) < 0x1_0000_0000 && Encoded(v) / MANTISSA % 2 == 0
    ensures Decoded(Encoded(v)) == v
  {
    SmallPowers();
    if v == 0 {
      DecodedShort(0, 0, 0);
    } else if v < 0x100 {
      ByteSizeIs(v, 1);
      if v < 0x80 {
        DecodedShort(v, v * 0x1_0000, 1);
      } else {
        DecodedShort(v, v * 0x100, 2);
      }
    } else if v < 0x1_0000 {
      ByteSizeIs(v, 2);
      if v < 0x8000 {
        DecodedShort(v, v * 0x100, 2);
      } else {
        DecodedShort(v, v, 3);
      }
    } else {
      ByteSizeIs(v, 3);
      DecodedShort(v, v, 3);
    }
  }

  lemma DecodedShort(v: nat, m: nat, size: nat)
    requires size <= 3 && m < MANTISSA && m == v * Pow(256, 3 - size)
    ensures m + size * EXPONENT < 0x1_0000_0000
    ensures (m + size * EXPONENT) / MANTISSA % 2 == 0 && Decoded(m + size * EXPONENT) == v
  {
    WordParts(m, size);
    PowPositive(256, 3 - size);
    DivUnique(m, Pow(256, 3 - size), v, 0);
  }

  /** From 2^23 up, the word is the truncated mantissa and three more than the
      number of bytes given up. */
  lemma {:induction false} EncodedLarge(v: nat)
    requires v >= MANTISSA
    ensures ByteSize(v) >= 3 && Excess(v) > 0
    ensures RawMantissa(v) < EXPONENT
    ensures Encoded(v) == DropBytes(v, Excess(v)) + (Excess(v) + 3) * EXPONENT
  {
    SmallPowers();
    if v < EXPONENT {
      ByteSizeIs(v, 3);
    } else if v / 256 < MANTISSA {
      ByteSizeIs(v, 4) by { assert Pow(256, 4) == 256 * Pow(256, 3); }
    } else {
      EncodedLarge(v / 256);
      DropSucc(v, ByteSize(v) - 4);
      DropSucc(v, Excess(v) - 1);
    }
  }

  lemma ExcessBelow32(v: nat)
    requires v < Pow(256, 32)
    ensures Excess(v) < 32
  {
    var e := Excess(v);
    if e >= 32 {
      ExcessMantissa(v);
      DropBound(v, e);
      PowMonotoneExp(256, 32, e);
      MulMonotone(1, DropBytes(v, e), Pow(256, e), Pow(256, e));
    }
  }

  lemma ModulusIsBytes()
    ensures MODULUS == Pow(256, 32) == Pow2(256)
  {
    ModulusIsPow2();
    assert Pow2(8) == 256;
    PowPow(2, 8, 32);
  }

  /** Decoding the compact word of a 256-bit number gives the number with its
      excess bytes cleared, and neither flag is raised. */
  lemma DecodeEncoded(v: nat)
    requires v < MODULUS
    ensures Encoded(v) < 0x1_0000_0000
    ensures Decoded(Encoded(v)) == Truncated(v) && !Negative(Encoded(v))
  {
    ModulusIsBytes();
    ExcessMantissa(v);
    if v < MANTISSA {
      EncodedSmall(v);
      SmallPowers();
    } else {
      EncodedLarge(v);
      ExcessBelow32(v);
      WordParts(DropBytes(v, Excess(v)), Excess(v) + 3);
    }
  }

  /** The round trip never raises a target, loses less than one part in 2^15 of
      it, keeps a nonzero target nonzero and encodes to the same word again. */
  lemma CompactRoundTrip(v: nat)
    requires v < MODULUS
    ensures Encoded(v) < 0x1_0000_0000 && !Negative(Encoded(v))
    ensures Decoded(Encoded(v)) <= v
    ensures v > 0 ==> (v - Decoded(Encoded(v))) * 0x8000 < v && Decoded(Encoded(v)) > 0
    ensures Encoded(Decoded(Encoded(v))) == Encoded(v)
  {
    DecodeEncoded(v);
    TruncatedError(v);
    if v < MANTISSA {
      ExcessMantissa(v);
      SmallPowers();
    } else {
      TruncatedStable(v);
      EncodedLarge(v);
      assert Truncated(v) >= MANTISSA;
      EncodedLarge(Truncated(v));
    }
  }

  /** Compact rounding keeps the order of targets. */
  lemma CompactMonotone(x: nat, y: nat)
    requires x <= y < MODULUS
    ensures Encoded(x) < 0x1_0000_0000 && Encoded(y) < 0x1_0000_0000
    ensures Decoded(Encoded(x)) <= Decoded(Encoded(y))
  {
    DecodeEncoded(x);
    DecodeEncoded(y);
    TruncatedMonotone(x, y);
  }

  /** The source's overflow test is exact: it fires if and only if the denoted
      number does not fit 256 bits. */
  predicate OverflowTest(w: Word) {
    Significand(w) != 0 &&
    (w / EXPONENT > 34
     || (Significand(w) > 0xff && w / EXPONENT > 33)
     || (Significand(w) > 0xffff && w / EXPONENT > 32))
  }

  lemma OverflowExact(w: Word)
    ensures OverflowTest(w) <==> Decoded(w) >= MODULUS
  {
    ModulusIsBytes();
    if w / EXPONENT <= 3 {
      SignificandBelow(w);
      SmallPowers();
      PowMonotoneExp(256, 3, 32);
    } else {
      OverflowAt(Significand(w), w / EXPONENT);
    }
  }

  lemma SignificandBelow(w: Word)
    ensures Significand(w) < MANTISSA
  {
    var size := w / EXPONENT;
    if size <= 3 {
      DropBound(w % MANTISSA, 3 - size);
      PowPositive(256, 3 - size);
      MulMonotone(Significand(w), Significand(w), 1, Pow(256, 3 - size));
    }
  }

  lemma OverflowAt(d: nat, size: nat)
    requires size > 3 && d < EXPONENT
    ensures d * Pow(256, size - 3) >= Pow(256, 32)
       <==> d != 0 && (size > 34 || (d > 0xff && size > 33) || (d > 0xffff && size > 32))
  {
    if size <= 32 {
      FitsUpTo32(d, size);
    } else if size == 33 {
      OverflowFrom(d, 30, 2, 0x1_0000);
    } else if size == 34 {
      OverflowFrom(d, 31, 1, 0x100);
    } else if d > 0 {
      PowMonotoneExp(256, 32, size - 3);
      MulMonotone(1, d, Pow(256, size - 3), Pow(256, size - 3));
    } else {
      PowPositive(256, 32);
    }
  }

  lemma OverflowFrom(d: nat, n: nat, k: nat, m: nat)
    requires Pow(256, k) == m
    ensures d * Pow(256, n) >= Pow(256, n + k) <==> d >= m
  {
    PowAdd(256, k, n);
    PowPositive(256, n);
    AtLeastMultiple(d, m, Pow(256, n));
  }

  lemma FitsUpTo32(d: nat, size: nat)
    requires d < EXPONENT && 3 <= size <= 32
    ensures d * Pow(256, size - 3) < Pow(256, 32)
  {
    SmallPowers();
    PowAdd(256, 3, size - 3);
    PowMonotoneExp(256, size, 32);
    PowPositive(256, size - 3);
    MulLess(Pow(256, size - 3), d, EXPONENT);
  }

  lemma AtLeastMultiple(d: nat, n: nat, p: nat)
    requires p > 0
    ensures d * p >= n * p <==> d >= n
  {
    if d >= n {
      MulMonotone(n, d, p, p);
    } else {
      MulLess(p, d, n);
    }
  }

  // ---- The two conversions of arith_uint256 ----

  lemma ByteShift(n: nat)
    ensures Pow2(8 * n) == Pow(256, n) > 0
  {
    assert Pow2(8) == 256;
    PowPow(2, 8, n);
    PowPositive(256, n);
  }

  /** The bit tests of the source on a compact word. */
  lemma WordBits(w: Word)
    ensures BitAnd(w, 0x7f_ffff) == w % MANTISSA
    ensures BitAnd(w, 0x80_0000) != 0 <==> w / MANTISSA % 2 == 1
  {
    MantissaPower();
    AndMask(w, 23);
    AndBit(w, 23);
  }

  lemma TopBitOf24(m: nat)
    requires m < EXPONENT
    ensures BitAnd(m, 0x80_0000) != 0 <==> m >= MANTISSA
  {
    WordBits(m);
  }

  lemma MantissaPower()
    ensures Pow2(23) == MANTISSA && Pow2(24) == EXPONENT
  {
    assert Pow2(7) == 0x80;
    ByteShift(2);
    SmallPowers();
    PowAdd(2, 7, 16);
    PowAdd(2, 1, 23);
  }

  lemma SmallFits64(v: nat)
    requires v < 0x1_0000_0000
    ensures v < Pow2(64)
  {
    Base32();
    PowMonotoneExp(2, 32, 64);
  }

  /** SetCompact: the value is exact modulo 2^256, the sign flag is the sign bit
      of a nonzero number, and the overflow flag says exactly that the number
      does not fit. */
  method SetCompact(t: BaseUint, nCompact: Word) returns (fNegative: bool, fOverflow: bool)
    requires t.Valid()
    modifies t.pn
    ensures t.Value() == Decoded(nCompact) % MODULUS
    ensures fNegative <==> Negative(nCompact)
    ensures fOverflow <==> Decoded(nCompact) >= MODULUS
  {
    WordBits(nCompact);
    SignificandBelow(nCompact);
    OverflowExact(nCompact);
    var nSize := nCompact / EXPONENT;
    var nWord := BitAnd(nCompact, 0x7f_ffff);
    SmallFits64(Significand(nCompact));
    if nSize <= 3 {
      ByteShift(3 - nSize);
      nWord := nWord / Pow2(8 * (3 - nSize));
      t.Assign(nWord);
      ModSmall(nWord, MODULUS) by { ModulusIsBytes(); SmallPowers(); PowMonotoneExp(256, 3, 32); }
    } else {
      ByteShift(nSize - 3);
      t.Assign(nWord);
      t.ShiftLeft(8 * (nSize - 3));
    }
    fNegative := nWord != 0 && BitAnd(nCompact, 0x80_0000) != 0;
    fOverflow := nWord != 0 && (nSize > 34 || (nWord > 0xff && nSize > 33) || (nWord > 0xffff && nSize > 32));
  }

  lemma {:induction false} BitsToBytes(v: nat, bits: nat)
    requires bits > 0 && Pow2(bits - 1) <= v < Pow2(bits)
    ensures ByteSize(v) == (bits + 7) / 8
    decreases bits
  {
    var n := (bits + 7) / 8;
    PowMonotoneExp(2, 8 * (n - 1), bits - 1);
    PowMonotoneExp(2, bits, 8 * n);
    ByteShift(n - 1);
    ByteShift(n);
    ByteSizeIs(v, n);
  }

  /** The raw mantissa fits 24 bits. */
  lemma RawMantissaBound(v: nat)
    requires v < MODULUS
    ensures RawMantissa(v) < EXPONENT && ByteSize(v) <= 32
  {
    if v < MANTISSA {
      RawShort(v);
    } else {
      ModulusIsBytes();
      EncodedLarge(v);
      ByteSizeAtMost(v, 32);
    }
  }

  lemma RawShort(v: nat)
    requires v < MANTISSA
    ensures RawMantissa(v) < EXPONENT && ByteSize(v) <= 3
  {
    SmallPowers();
    if v == 0 {
    } else if v < 0x100 {
      ByteSizeIs(v, 1);
    } else if v < 0x1_0000 {
      ByteSizeIs(v, 2);
    } else {
      ByteSizeIs(v, 3);
    }
  }

  lemma {:induction false} ByteSizeAtMost(v: nat, n: nat)
    requires v < Pow(256, n)
    ensures ByteSize(v) <= n
  {
    if v > 0 {
      PowPositive(256, n);
      ByteSizeAtMost(v / 256, n - 1);
    }
  }

  /** A number of at most three bytes is below 2^24. */
  lemma ThreeBytes(v: nat)
    requires ByteSize(v) <= 3
    ensures v < EXPONENT
  {
    ByteSizeBound(v);
    PowMonotoneExp(256, ByteSize(v), 3);
    SmallPowers();
  }

  lemma {:induction false} ByteSizeBound(v: nat)
    ensures v < Pow(256, ByteSize(v))
  {
    if v > 0 {
      ByteSizeBound(v / 256);
    }
  }

  /** The first half of GetCompact: the byte count and the 24 leading bits. */
  method LeadingBytes(t: BaseUint) returns (nCompact: nat, nSize: nat)
    requires t.Valid()
    ensures nSize == ByteSize(t.Value()) && nCompact == RawMantissa(t.Value())
  {
    hide Pow, Val;
    ghost var v := t.Value();
    ValBound(t.pn[..]);
    RawMantissaBound(v);
    SmallFits64(RawMantissa(v));
    var bits := t.Bits();
    if bits > 0 {
      BitsToBytes(v, bits);
    }
    nSize := (bits + 7) / 8;
    if nSize <= 3 {
      ThreeBytes(v);
      SmallFits64(v);
      ModSmall(v, Pow2(64));
      ByteShift(3 - nSize);
      var low := t.GetLow64();
      ModSmall(RawMantissa(v), 0x1_0000_0000);
      nCompact := low * Pow2(8 * (3 - nSize)) % 0x1_0000_0000;
    } else {
      var bn := new BaseUint.Copy(t);
      ByteShift(nSize - 3);
      bn.ShiftRight(8 * (nSize - 3));
      ModSmall(RawMantissa(v), Pow2(64));
      var low := bn.GetLow64();
      ModSmall(low, 0x1_0000_0000);
      nCompact := low % 0x1_0000_0000;
    }
  }

  /** GetCompact: computes the compact word of the number. */
  method GetCompact(t: BaseUint, fNegative: bool) returns (nCompact: Word)
    requires t.Valid()
    ensures Encoded(t.Value()) < 0x1_0000_0000
    ensures nCompact == Encoded(t.Value())
                        + if fNegative && KeptMantissa(t.Value()) != 0 then MANTISSA else 0
  {
    ghost var v := t.Value();
    ValBound(t.pn[..]);
    RawMantissaBound(v);
    var raw, nSize := LeadingBytes(t);
    TopBitOf24(raw);
    if BitAnd(raw, 0x80_0000) != 0 {
      raw := raw / 256;
      nSize := nSize + 1;
    }
    assert raw == KeptMantissa(v) < MANTISSA && nSize == KeptSize(v) < 256;
    nCompact := JoinWord(raw, nSize, fNegative);
  }

  /** The ORs at the end of GetCompact. */
  method JoinWord(mantissa: nat, nSize: nat, fNegative: bool) returns (nCompact: Word)
    requires mantissa < MANTISSA && nSize < 256
    ensures nCompact == mantissa + nSize * EXPONENT + if fNegative && mantissa != 0 then MANTISSA else 0
  {
    MantissaPower();
    WordParts(mantissa, nSize);
    DivUnique(nSize * EXPONENT, Pow2(24), nSize, 0);
    OrDisjoint(nSize * EXPONENT, mantissa, 24);
    var word: Word := BitOr(mantissa, nSize * EXPONENT);
    WordBits(word);
    nCompact := word;
    if fNegative && BitAnd(word, 0x7f_ffff) != 0 {
      OrBit(word, 23);
      nCompact := BitOr(word, 0x80_0000);
    }
  }
}
