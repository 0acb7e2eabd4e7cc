/** CashAddr: a checksum over GF(32), and the text form of a prefix and 5-bit values. */
module CashAddr {
  import opened Words

  // ---- One step of the checksum ----

  const STATES: bv64 := 0x100_0000_0000

  function Chosen(b: bool, k: bv64): bv64 {
    if b then k else 0
  }

  predicate Tap(c: bv64, m: bv64) {
    (c >> 35) & m != 0
  }

  function Shifted(c: bv64): bv64 {
    (c & 0x07_ffff_ffff) << 5
  }

  /** Multiplies the remainder by x, adds d and reduces by the generator. */
  function Step(c: bv64, d: bv64): bv64 {
    var s := Xor64(Shifted(c), d);
    var s1 := Xor64(s, Chosen(Tap(c, 0x01), 0x98f2bc8e61));
    var s2 := Xor64(s1, Chosen(Tap(c, 0x02), 0x79b76d99e2));
    var s4 := Xor64(s2, Chosen(Tap(c, 0x04), 0xf33e5fb3c4));
    var s8 := Xor64(s4, Chosen(Tap(c, 0x08), 0xae2eabe2a8));
    Xor64(s8, Chosen(Tap(c, 0x10), 0x1e4f43e470))
  }

  predicate InState(c: bv64) {
    c < STATES
  }

  lemma XorInState(a: bv64, b: bv64, r: bv64)
    requires InState(a) && InState(b) && r == a ^ b
    ensures InState(r)
  {
  }

  lemma XorStates(a: bv64, b: bv64)
    requires InState(a) && InState(b)
    ensures InState(Xor64(a, b))
  {
    hide InState, Xor64;
    XorDef64(a, b);
    XorInState(a, b, Xor64(a, b));
  }

  lemma PartsInState(c: bv64, d: bv64)
    requires d < 32
    ensures InState(Shifted(c)) && InState(d)
    ensures InState(0) && InState(0x98f2bc8e61) && InState(0x79b76d99e2) && InState(0xf33e5fb3c4)
    ensures InState(0xae2eabe2a8) && InState(0x1e4f43e470)
  {
  }

  /** A step stays within 40 bits. */
  lemma StepStaysInState(c: bv64, d: bv64)
    requires d < 32
    ensures InState(Step(c, d))
  {
    hide InState, Xor64, Shifted, Tap;
    PartsInState(c, d);
    var s := Xor64(Shifted(c), d);
    XorStates(Shifted(c), d);
    var s1 := Xor64(s, Chosen(Tap(c, 0x01), 0x98f2bc8e61));
    XorStates(s, Chosen(Tap(c, 0x01), 0x98f2bc8e61));
    var s2 := Xor64(s1, Chosen(Tap(c, 0x02), 0x79b76d99e2));
    XorStates(s1, Chosen(Tap(c, 0x02), 0x79b76d99e2));
    var s4 := Xor64(s2, Chosen(Tap(c, 0x04), 0xf33e5fb3c4));
    XorStates(s2, Chosen(Tap(c, 0x04), 0xf33e5fb3c4));
    var s8 := Xor64(s4, Chosen(Tap(c, 0x08), 0xae2eabe2a8));
    XorStates(s4, Chosen(Tap(c, 0x08), 0xae2eabe2a8));
    XorStates(s8, Chosen(Tap(c, 0x10), 0x1e4f43e470));
  }

  lemma StepInRange(c: bv64, d: bv64)
    requires c < STATES && d < 32
    ensures Step(c, d) < STATES
  {
    hide Step;
    StepStaysInState(c, d);
  }

  /** Below 35 bits nothing is reduced. */
  lemma StepSmall(c: bv64, d: bv64)
    requires c < 0x8_0000_0000
    ensures Step(c, d) == Xor64(Shifted(c), d)
  {
    hide Xor64, Shifted, Tap;
    NoTaps(c);
    XorZero64(Xor64(Shifted(c), d), 0);
  }

  lemma NoTaps(c: bv64)
    requires c < 0x8_0000_0000
    ensures !Tap(c, 0x01) && !Tap(c, 0x02) && !Tap(c, 0x04) && !Tap(c, 0x08) && !Tap(c, 0x10)
  {
  }

  /** Only the zero state steps to zero. */
  lemma StepKernel(c: bv64)
    requires c < STATES && Step(c, 0) == 0
    ensures c == 0
  {
  }

  lemma ShiftedXor(a: bv64, b: bv64, ab: bv64, r: bv64)
    requires ab == a ^ b && r == Shifted(a) ^ Shifted(b)
    ensures Shifted(ab) == r
  {
  }

  lemma TapXor0(a: bv64, b: bv64, ab: bv64)
    requires ab == a ^ b
    ensures Tap(ab, 0x01) == (Tap(a, 0x01) != Tap(b, 0x01))
  {
  }

  lemma TapXor1(a: bv64, b: bv64, ab: bv64)
    requires ab == a ^ b
    ensures Tap(ab, 0x02) == (Tap(a, 0x02) != Tap(b, 0x02))
  {
  }

  lemma TapXor2(a: bv64, b: bv64, ab: bv64)
    requires ab == a ^ b
    ensures Tap(ab, 0x04) == (Tap(a, 0x04) != Tap(b, 0x04))
  {
  }

  lemma TapXor3(a: bv64, b: bv64, ab: bv64)
    requires ab == a ^ b
    ensures Tap(ab, 0x08) == (Tap(a, 0x08) != Tap(b, 0x08))
  {
  }

  lemma TapXor4(a: bv64, b: bv64, ab: bv64)
    requires ab == a ^ b
    ensures Tap(ab, 0x10) == (Tap(a, 0x10) != Tap(b, 0x10))
  {
  }

  lemma ShiftedLinear(a: bv64, b: bv64)
    ensures Shifted(Xor64(a, b)) == Xor64(Shifted(a), Shifted(b))
  {
    hide Xor64, Shifted;
    XorDef64(a, b);
    XorDef64(Shifted(a), Shifted(b));
    ShiftedXor(a, b, Xor64(a, b), Xor64(Shifted(a), Shifted(b)));
  }

  /** Each tap of a sum is the sum of the taps. */
  lemma TapsLinear(a: bv64, b: bv64)
    ensures Tap(Xor64(a, b), 0x01) == (Tap(a, 0x01) != Tap(b, 0x01))
    ensures Tap(Xor64(a, b), 0x02) == (Tap(a, 0x02) != Tap(b, 0x02))
    ensures Tap(Xor64(a, b), 0x04) == (Tap(a, 0x04) != Tap(b, 0x04))
    ensures Tap(Xor64(a, b), 0x08) == (Tap(a, 0x08) != Tap(b, 0x08))
    ensures Tap(Xor64(a, b), 0x10) == (Tap(a, 0x10) != Tap(b, 0x10))
  {
    hide Xor64, Tap;
    var ab := Xor64(a, b);
    XorDef64(a, b);
    TapXor0(a, b, ab);
    TapXor1(a, b, ab);
    TapXor2(a, b, ab);
    TapXor3(a, b, ab);
    TapXor4(a, b, ab);
  }

  lemma ChosenXor(p: bool, q: bool, k: bv64)
    ensures Chosen(p != q, k) == Xor64(Chosen(p, k), Chosen(q, k))
  {
    XorSelf(k);
    XorZero64(k, 0);
  }

  lemma XorSelf(k: bv64)
    ensures Xor64(k, k) == 0
  {
  }

  /** A step is linear. */
  lemma StepLinear(a: bv64, x: bv64, b: bv64, y: bv64)
    ensures Step(Xor64(a, b), Xor64(x, y)) == Xor64(Step(a, x), Step(b, y))
  {
    hide Xor64, Shifted, Tap, Chosen;
    var ab := Xor64(a, b);
    LinearParts(a, b);
    var s, t := Xor64(Shifted(a), x), Xor64(Shifted(b), y);
    XorInterchange64(Shifted(a), Shifted(b), x, y);
    var f1, g1 := Chosen(Tap(a, 0x01), 0x98f2bc8e61), Chosen(Tap(b, 0x01), 0x98f2bc8e61);
    XorInterchange64(s, t, f1, g1);
    var s1, t1 := Xor64(s, f1), Xor64(t, g1);
    var f2, g2 := Chosen(Tap(a, 0x02), 0x79b76d99e2), Chosen(Tap(b, 0x02), 0x79b76d99e2);
    XorInterchange64(s1, t1, f2, g2);
    var s2, t2 := Xor64(s1, f2), Xor64(t1, g2);
    var f4, g4 := Chosen(Tap(a, 0x04), 0xf33e5fb3c4), Chosen(Tap(b, 0x04), 0xf33e5fb3c4);
    XorInterchange64(s2, t2, f4, g4);
    var s4, t4 := Xor64(s2, f4), Xor64(t2, g4);
    var f8, g8 := Chosen(Tap(a, 0x08), 0xae2eabe2a8), Chosen(Tap(b, 0x08), 0xae2eabe2a8);
    XorInterchange64(s4, t4, f8, g8);
    var s8, t8 := Xor64(s4, f8), Xor64(t4, g8);
    var f16, g16 := Chosen(Tap(a, 0x10), 0x1e4f43e470), Chosen(Tap(b, 0x10), 0x1e4f43e470);
    XorInterchange64(s8, t8, f16, g16);
  }

  ghost predicate LinearAt(a: bv64, b: bv64, m: bv64, k: bv64) {
    Chosen(Tap(Xor64(a, b), m), k) == Xor64(Chosen(Tap(a, m), k), Chosen(Tap(b, m), k))
  }

  lemma LinearParts(a: bv64, b: bv64)
    ensures Shifted(Xor64(a, b)) == Xor64(Shifted(a), Shifted(b))
    ensures LinearAt(a, b, 0x01, 0x98f2bc8e61)
    ensures LinearAt(a, b, 0x02, 0x79b76d99e2)
    ensures LinearAt(a, b, 0x04, 0xf33e5fb3c4)
    ensures LinearAt(a, b, 0x08, 0xae2eabe2a8)
    ensures LinearAt(a, b, 0x10, 0x1e4f43e470)
  {
    hide Xor64, Shifted, Tap, Chosen;
    ShiftedLinear(a, b);
    TapsLinear(a, b);
    ChosenXor(Tap(a, 0x01), Tap(b, 0x01), 0x98f2bc8e61);
    ChosenXor(Tap(a, 0x02), Tap(b, 0x02), 0x79b76d99e2);
    ChosenXor(Tap(a, 0x04), Tap(b, 0x04), 0xf33e5fb3c4);
    ChosenXor(Tap(a, 0x08), Tap(b, 0x08), 0xae2eabe2a8);
    ChosenXor(Tap(a, 0x10), Tap(b, 0x10), 0x1e4f43e470);
  }

  // ---- The checksum of a word ----

  predicate InField(v: seq<bv64>) {
    forall i :: 0 <= i < |v| ==> v[i] < 32
  }

  function Fold(c: bv64, v: seq<bv64>): bv64 {
    if v == [] then c else Step(Fold(c, v[..|v| - 1]), v[|v| - 1])
  }

  lemma FoldNext(c: bv64, v: seq<bv64>, d: bv64)
    ensures Fold(c, []) == c && Fold(c, v + [d]) == Step(Fold(c, v), d)
  {
    assert (v + [d])[..|v|] == v;
  }

  method PolyMod(v: seq<bv64>) returns (c: bv64)
    ensures c == Fold(1, v)
  {
    hide Step, Fold;
    c := 1;
    FoldNext(1, [], 0);
    for i := 0 to |v|
      invariant c == Fold(1, v[..i])
    {
      assert v[..i + 1] == v[..i] + [v[i]];
      FoldNext(1, v[..i], v[i]);
      c := Step(c, v[i]);
    }
    assert v[..|v|] == v;
  }

  lemma {:induction false} FoldConcat(c: bv64, v: seq<bv64>, w: seq<bv64>)
    ensures Fold(c, v + w) == Fold(Fold(c, v), w)
    decreases |w|
  {
    hide Step;
    if w == [] {
      assert v + w == v;
    } else {
      var n := |w| - 1;
      FoldConcat(c, v, w[..n]);
      assert v + w == v + w[..n] + [w[n]];
      assert w == w[..n] + [w[n]];
      FoldNext(c, v + w[..n], w[n]);
    }
  }

  lemma {:induction false} FoldInRange(c: bv64, v: seq<bv64>)
    requires c < STATES && InField(v)
    ensures Fold(c, v) < STATES
  {
    hide Step;
    if v != [] {
      FoldInRange(c, v[..|v| - 1]);
      StepInRange(Fold(c, v[..|v| - 1]), v[|v| - 1]);
    }
  }

  /** The difference of two words of one length. */
  function Sum(v: seq<bv64>, w: seq<bv64>): (r: seq<bv64>)
    requires |v| == |w|
    ensures |r| == |v|
  {
    seq(|v|, i requires 0 <= i < |v| => Xor64(v[i], w[i]))
  }

  lemma {:induction false} FoldLinear(a: bv64, v: seq<bv64>, b: bv64, w: seq<bv64>)
    requires |v| == |w|
    ensures Fold(Xor64(a, b), Sum(v, w)) == Xor64(Fold(a, v), Fold(b, w))
  {
    hide Step, Xor64;
    if v != [] {
      var n := |v| - 1;
      FoldLinear(a, v[..n], b, w[..n]);
      assert Sum(v, w)[..n] == Sum(v[..n], w[..n]);
      StepLinear(Fold(a, v[..n]), v[n], Fold(b, w[..n]), w[n]);
    }
  }

  function Zeros(n: nat): (r: seq<bv64>)
    ensures |r| == n && InField(r)
  {
    seq(n, _ => 0)
  }

  /** Zeros lead from zero to zero and from nothing else. */
  lemma {:induction false} FoldZeros(c: bv64, n: nat)
    requires c < STATES
    ensures Fold(c, Zeros(n)) == 0 <==> c == 0
    ensures Fold(c, Zeros(n)) < STATES
  {
    hide Step;
    FoldInRange(c, Zeros(n));
    if n > 0 {
      assert Zeros(n)[..n - 1] == Zeros(n - 1);
      FoldZeros(c, n - 1);
      FoldInRange(c, Zeros(n - 1));
      StepOfZero(Fold(c, Zeros(n - 1)));
    }
  }

  lemma StepOfZero(c: bv64)
    requires c < STATES
    ensures Step(c, 0) == 0 <==> c == 0
  {
    if c == 0 {
      StepSmall(0, 0);
    } else if Step(c, 0) == 0 {
      StepKernel(c);
    }
  }

  // ---- Up to eight values fit the state ----

  function Limit(k: nat): bv64 {
    if k == 0 then 1
    else if k == 1 then 0x20
    else if k == 2 then 0x400
    else if k == 3 then 0x8000
    else if k == 4 then 0x10_0000
    else if k == 5 then 0x200_0000
    else if k == 6 then 0x4000_0000
    else if k == 7 then 0x8_0000_0000
    else STATES
  }

  predicate Less(c: bv64, l: bv64) {
    c < l
  }

  predicate Grows(l: bv64, m: bv64) {
    l <= 0x8_0000_0000 && m == l << 5
  }

  lemma LimitNext(k: nat)
    requires k < 8
    ensures Grows(Limit(k), Limit(k + 1))
  {
  }

  lemma SmallStep(c: bv64, d: bv64, l: bv64, m: bv64)
    requires Less(c, l) && Grows(l, m)
    ensures Step(c, d) == Xor64(Shifted(c), d)
  {
    StepSmall(c, d);
  }

  lemma ShiftGrows(c: bv64, d: bv64, l: bv64, m: bv64, r: bv64)
    requires Less(c, l) && Grows(l, m) && d < 32 && r == Shifted(c) ^ d
    ensures Less(r, m) && (r == 0 <==> c == 0 && d == 0)
  {
  }

  predicate Fits(c: bv64, k: nat) {
    Less(c, Limit(k))
  }

  lemma FitsStep(c: bv64, d: bv64, k: nat)
    requires k < 8 && Fits(c, k) && d < 32
    ensures Fits(Step(c, d), k + 1) && (Step(c, d) == 0 <==> c == 0 && d == 0)
  {
    hide Step, Limit, Xor64, Shifted, Less, Grows;
    LimitNext(k);
    SmallStep(c, d, Limit(k), Limit(k + 1));
    XorDef64(Shifted(c), d);
    ShiftGrows(c, d, Limit(k), Limit(k + 1), Step(c, d));
  }

  /** Starting from zero, at most eight values are just packed: the result is zero only
      for zeros. */
  lemma {:induction false} FoldFew(v: seq<bv64>)
    requires |v| <= 8 && InField(v)
    ensures Fits(Fold(0, v), |v|)
    ensures Fold(0, v) == 0 <==> v == Zeros(|v|)
  {
    hide Step, Fits;
    if v == [] {
      FitsZero();
    } else {
      var n := |v| - 1;
      FoldFew(v[..n]);
      FitsStep(Fold(0, v[..n]), v[n], n);
      assert v == v[..n] + [v[n]];
      assert Zeros(|v|) == Zeros(n) + [0];
    }
  }

  lemma FitsZero()
    ensures Fits(0, 0) && forall x :: Fits(x, 0) ==> x == 0
  {
  }

  function Low5(x: bv64): bv64 {
    x & 0x1f
  }

  function High35(x: bv64): bv64 {
    x >> 5
  }

  /** The last n groups of five bits. */
  function Groups(x: bv64, n: nat): (r: seq<bv64>)
    ensures |r| == n
  {
    if n == 0 then [] else Groups(High35(x), n - 1) + [Low5(x)]
  }

  lemma GroupSplit(x: bv64, l: bv64, m: bv64, lo: bv64, hi: bv64, r: bv64)
    requires Less(x, m) && Grows(l, m) && lo == x & 0x1f && hi == x >> 5 && r == Shifted(hi) ^ lo
    ensures lo < 32 && Less(hi, l) && r == x
  {
  }

  lemma GroupDef(x: bv64)
    ensures Low5(x) == x & 0x1f && High35(x) == x >> 5
  {
  }

  lemma GroupStep(x: bv64, k: nat)
    requires k < 8 && Fits(x, k + 1)
    ensures Low5(x) < 32 && Fits(High35(x), k) && Step(High35(x), Low5(x)) == x
  {
    hide Step, Limit, Xor64, Shifted, Low5, High35, Less, Grows;
    var lo, hi := Low5(x), High35(x);
    LimitNext(k);
    GroupDef(x);
    XorDef64(Shifted(hi), lo);
    GroupSplit(x, Limit(k), Limit(k + 1), lo, hi, Xor64(Shifted(hi), lo));
    SmallStep(hi, lo, Limit(k), Limit(k + 1));
  }

  /** A packed state is what its own groups lead to. */
  lemma {:induction false} FoldGroups(x: bv64, n: nat)
    requires n <= 8 && Fits(x, n)
    ensures InField(Groups(x, n)) && Fold(0, Groups(x, n)) == x
    decreases n
  {
    hide Step, Fits, Low5, High35;
    if n == 0 {
      FitsZero();
    } else {
      GroupStep(x, n - 1);
      FoldGroups(High35(x), n - 1);
      FoldNext(0, Groups(High35(x), n - 1), Low5(x));
    }
  }

  // ---- Checksums ----

  /** A small number as a field element. */
  function Element(n: nat): (x: bv64)
    requires n < 32
    ensures x < 32
  {
    if n == 0 then 0 else if n == 1 then 1 else if n == 2 then 2 else if n == 3 then 3
    else if n == 4 then 4 else if n == 5 then 5 else if n == 6 then 6 else if n == 7 then 7
    else if n == 8 then 8 else if n == 9 then 9 else if n == 10 then 10 else if n == 11 then 11
    else if n == 12 then 12 else if n == 13 then 13 else if n == 14 then 14 else if n == 15 then 15
    else if n == 16 then 16 else if n == 17 then 17 else if n == 18 then 18 else if n == 19 then 19
    else if n == 20 then 20 else if n == 21 then 21 else if n == 22 then 22 else if n == 23 then 23
    else if n == 24 then 24 else if n == 25 then 25 else if n == 26 then 26 else if n == 27 then 27
    else if n == 28 then 28 else if n == 29 then 29 else if n == 30 then 30 else 31
  }

  lemma ElementIs(n: nat)
    requires n < 32
    ensures Element(n) as int == n
  {
  }

  /** The low five bits of every character, and a zero to end the prefix. */
  function Expanded(prefix: string): (r: seq<bv64>)
    ensures |r| == |prefix| + 1 && InField(r)
  {
    seq(|prefix|, i requires 0 <= i < |prefix| => Element(prefix[i] as int % 32)) + [0]
  }

  /** Of every character of the prefix the low five bits count, and a zero separates it from
      the payload. */
  lemma ExpandedIs(prefix: string, i: nat)
    requires i <= |prefix|
    ensures |Expanded(prefix)| == |prefix| + 1
    ensures Expanded(prefix)[i] as int == if i < |prefix| then prefix[i] as int % 32 else 0
  {
    if i < |prefix| {
      ElementIs(prefix[i] as int % 32);
    }
  }

  predicate Verifies(prefix: string, values: seq<bv64>) {
    Fold(1, Expanded(prefix) + values) == 1
  }

  function Checksum(prefix: string, values: seq<bv64>): seq<bv64> {
    Groups(Xor64(Fold(1, Expanded(prefix) + values + Zeros(8)), 1), 8)
  }

  /** The checksum makes every word valid. */
  lemma ChecksumVerifies(prefix: string, values: seq<bv64>)
    requires InField(values)
    ensures |Checksum(prefix, values)| == 8 && InField(Checksum(prefix, values))
    ensures Verifies(prefix, values + Checksum(prefix, values))
  {
    hide Step, Fold, Xor64, Groups, Fits;
    var enc := Expanded(prefix) + values;
    var s := Fold(1, enc);
    FoldInRange(1, enc);
    FoldConcat(1, enc, Zeros(8));
    var m := Fold(s, Zeros(8));
    FoldInRange(s, Zeros(8));
    var mod := Xor64(m, 1);
    StateXor(m, 1);
    FoldGroups(mod, 8);
    var check := Groups(mod, 8);
    FoldLinear(s, Zeros(8), 0, check);
    XorZero64(s, 0);
    forall i | 0 <= i < 8
      ensures Xor64(Zeros(8)[i], check[i]) == check[i]
    {
      XorZero64(check[i], 0);
    }
    assert Sum(Zeros(8), check) == check;
    XorCancel(m, 1);
    FoldConcat(1, enc, check);
    assert Expanded(prefix) + (values + check) == enc + check;
  }

  lemma StateXor(a: bv64, b: bv64)
    requires a < STATES && b < STATES
    ensures Xor64(a, b) < STATES && Fits(Xor64(a, b), 8)
  {
  }

  lemma XorCancel(a: bv64, b: bv64)
    ensures Xor64(a, Xor64(a, b)) == b
  {
    hide Xor64;
    XorLaws64(b, a, 0);
    XorZero64(a, b);
    XorZero64(a, Xor64(a, b));
  }

  // ---- Errors the checksum detects ----

  lemma XorSmall(a: bv64, b: bv64)
    requires a < 32 && b < 32
    ensures Xor64(a, b) < 32
  {
  }

  lemma XorNothing(a: bv64, b: bv64)
    ensures Xor64(a, b) == 0 <==> a == b
  {
    hide Xor64;
    XorCancel(a, b);
    XorSelf(a);
    XorZero64(a, 0);
  }

  /** Any change confined to eight consecutive values of a valid word makes it invalid. */
  lemma BurstDetected(w: seq<bv64>, w': seq<bv64>, i: nat)
    requires |w| == |w'| && InField(w) && InField(w') && i <= |w|
    requires w != w' && forall k :: 0 <= k < |w| && (k < i || i + 8 <= k) ==> w[k] == w'[k]
    requires Fold(1, w) == 1
    ensures Fold(1, w') != 1
  {
    hide Fold, Xor64, Step;
    var j := if i + 8 <= |w| then i + 8 else |w|;
    var e := Sum(w, w');
    var few := Sum(w[i..j], w'[i..j]);
    FoldLinear(1, w, 1, w');
    XorSelf(1);
    BurstSplit(w, w', i, j);
    BurstNonzero(w[i..j], w'[i..j]);
    assert w[i..j] != w'[i..j] by { BurstDiffers(w, w', i, j); }
    FoldConcat(0, Zeros(i) + few, Zeros(|w| - j));
    FoldConcat(0, Zeros(i), few);
    FoldZeros(0, i);
    FoldFew(few);
    FoldInRange(0, few);
    FoldZeros(Fold(0, few), |w| - j);
    XorNothing(Fold(1, w), Fold(1, w'));
  }

  lemma BurstDiffers(w: seq<bv64>, w': seq<bv64>, i: nat, j: nat)
    requires |w| == |w'| && i <= j <= |w| && w != w'
    requires forall k :: 0 <= k < |w| && (k < i || j <= k) ==> w[k] == w'[k]
    ensures w[i..j] != w'[i..j]
  {
    if w[i..j] == w'[i..j] {
      forall k | 0 <= k < |w|
        ensures w[k] == w'[k]
      {
        assert i <= k < j ==> w[k] == w[i..j][k - i] && w'[k] == w'[i..j][k - i];
      }
    }
  }

  lemma BurstSplit(w: seq<bv64>, w': seq<bv64>, i: nat, j: nat)
    requires |w| == |w'| && i <= j <= |w|
    requires forall k :: 0 <= k < |w| && (k < i || j <= k) ==> w[k] == w'[k]
    ensures Sum(w, w') == Zeros(i) + Sum(w[i..j], w'[i..j]) + Zeros(|w| - j)
  {
    hide Xor64;
    forall k | 0 <= k < |w| && w[k] == w'[k]
      ensures Xor64(w[k], w'[k]) == 0
    {
      XorSelf(w[k]);
    }
  }

  lemma BurstNonzero(v: seq<bv64>, w: seq<bv64>)
    requires |v| == |w| && InField(v) && InField(w)
    ensures InField(Sum(v, w)) && (v != w ==> Sum(v, w) != Zeros(|v|))
  {
    hide Xor64;
    forall k | 0 <= k < |v|
      ensures Xor64(v[k], w[k]) < 32 && (Xor64(v[k], w[k]) == 0 ==> v[k] == w[k])
    {
      XorSmall(v[k], w[k]);
      XorNothing(v[k], w[k]);
    }
    if Sum(v, w) == Zeros(|v|) {
      forall k | 0 <= k < |v|
        ensures v[k] == w[k]
      {
        assert Sum(v, w)[k] == 0;
      }
    }
  }

  /** So no burst of up to eight wrong characters passes the check. */
  lemma BurstRejected(prefix: string, values: seq<bv64>, values': seq<bv64>, i: nat)
    requires |values| == |values'| && InField(values) && InField(values') && i <= |values|
    requires values != values'
    requires forall k :: 0 <= k < |values| && (k < i || i + 8 <= k) ==> values[k] == values'[k]
    requires Verifies(prefix, values)
    ensures !Verifies(prefix, values')
  {
    hide Fold, Expanded;
    var e := Expanded(prefix);
    assert (e + values)[|e|..] == values && (e + values')[|e|..] == values';
    BurstDetected(e + values, e + values', |e| + i);
  }

  // ---- Computing the checksum ----

  /** A right shift by 5 * k bits. */
  function Down(x: bv64, k: nat): bv64 {
    if k == 0 then x else Down(High35(x), k - 1)
  }

  /** The checksum value at place i: five bits of the remainder, the highest first. */
  function Group(mod: bv64, i: nat): bv64
    requires i < 8
  {
    Low5(Down(mod, 7 - i))
  }

  lemma {:induction false} GroupAt(x: bv64, n: nat, i: nat)
    requires i < n
    ensures Groups(x, n)[i] == Low5(Down(x, n - 1 - i))
    decreases n
  {
    hide Low5, High35;
    if i < n - 1 {
      GroupAt(High35(x), n - 1, i);
    }
  }

  method CreateChecksum(prefix: string, values: seq<bv64>) returns (ret: seq<bv64>)
    ensures ret == Checksum(prefix, values)
  {
    hide Fold, Groups, Xor64, Expanded, Low5, Down;
    var polymod := PolyMod(Expanded(prefix) + values + Zeros(8));
    var mod := Xor64(polymod, 1);
    ret := [];
    for i := 0 to 8
      invariant |ret| == i && ret == Groups(mod, 8)[..i]
    {
      GroupAt(mod, 8, i);
      ret := ret + [Group(mod, i)];
    }
  }
}
