/** The rolling Bloom filter: two bits per position hold the generation that set it last,
    and starting a generation wipes the one three before it by word-wide masks. */
module RollingBloom {
  import opened Powers

  type Key = seq<bv8>

  // ---- Bits of a word ----

  predicate Bit(x: bv64, b: bv32)
    requires b < 64
  {
    (x >> b) & 1 == 1
  }

  function And(x: bv64, y: bv64): bv64 {
    x & y
  }

  function Or(x: bv64, y: bv64): bv64 {
    x | y
  }

  function Xor(x: bv64, y: bv64): bv64 {
    x ^ y
  }

  function Not(x: bv64): bv64 {
    !x
  }

  lemma AndRaw(x: bv64, y: bv64, z: bv64, b: bv32)
    requires b < 64 && z == x & y
    ensures Bit(z, b) <==> Bit(x, b) && Bit(y, b)
  {
  }

  lemma AndBit(x: bv64, y: bv64, b: bv32)
    requires b < 64
    ensures Bit(And(x, y), b) <==> Bit(x, b) && Bit(y, b)
  {
    hide Bit;
    AndRaw(x, y, And(x, y), b);
  }

  lemma OrRaw(x: bv64, y: bv64, z: bv64, b: bv32)
    requires b < 64 && z == x | y
    ensures Bit(z, b) <==> Bit(x, b) || Bit(y, b)
  {
  }

  lemma OrBit(x: bv64, y: bv64, b: bv32)
    requires b < 64
    ensures Bit(Or(x, y), b) <==> Bit(x, b) || Bit(y, b)
  {
    hide Bit;
    OrRaw(x, y, Or(x, y), b);
  }

  lemma XorRaw(x: bv64, y: bv64, z: bv64, b: bv32)
    requires b < 64 && z == x ^ y
    ensures Bit(z, b) <==> Bit(x, b) != Bit(y, b)
  {
  }

  lemma XorBit(x: bv64, y: bv64, b: bv32)
    requires b < 64
    ensures Bit(Xor(x, y), b) <==> Bit(x, b) != Bit(y, b)
  {
    hide Bit;
    XorRaw(x, y, Xor(x, y), b);
  }

  lemma NotBit(x: bv64, b: bv32)
    requires b < 64
    ensures Bit(Not(x), b) <==> !Bit(x, b)
  {
  }

  function Filled(v: bool): bv64 {
    if v then 0xFFFF_FFFF_FFFF_FFFF else 0
  }

  function Only(b: bv32): bv64
    requires b < 64
  {
    1 << b
  }

  lemma FilledBit(v: bool, b: bv32)
    requires b < 64
    ensures Bit(Filled(v), b) <==> v
  {
  }

  lemma OnlyBit(b: bv32, c: bv32)
    requires b < 64 && c < 64
    ensures Bit(Only(b), c) <==> b == c
  {
  }

  /** Sets or clears one bit of a word. */
  function Write(x: bv64, b: bv32, v: bool): bv64
    requires b < 64
  {
    Or(And(x, Not(Only(b))), if v then Only(b) else Filled(false))
  }

  lemma WriteBit(x: bv64, b: bv32, v: bool, c: bv32)
    requires b < 64 && c < 64
    ensures Bit(Write(x, b, v), c) <==> if b == c then v else Bit(x, c)
  {
    hide Bit, Only, And, Or, Not, Filled;
    OrBit(And(x, Not(Only(b))), if v then Only(b) else Filled(false), c);
    AndBit(x, Not(Only(b)), c);
    NotBit(Only(b), c);
    OnlyBit(b, c);
    FilledBit(false, c);
  }

  // ---- Generations ----

  predicate Low(g: nat) {
    g % 2 == 1
  }

  predicate High(g: nat) {
    g / 2 == 1
  }

  /** The generation two bits stand for, 0 for none. */
  function Code(low: bool, high: bool): nat {
    (if low then 1 else 0) + (if high then 2 else 0)
  }

  /** Ones wherever a position does not hold generation g. */
  function KeepMask(p1: bv64, p2: bv64, g: nat): bv64 {
    Or(Xor(p1, Filled(Low(g))), Xor(p2, Filled(High(g))))
  }

  lemma KeepBit(p1: bv64, p2: bv64, g: nat, b: bv32)
    requires b < 64 && 1 <= g <= 3
    ensures Bit(KeepMask(p1, p2, g), b) <==> Code(Bit(p1, b), Bit(p2, b)) != g
  {
    hide Bit, Filled, Or, Xor;
    OrBit(Xor(p1, Filled(Low(g))), Xor(p2, Filled(High(g))), b);
    XorBit(p1, Filled(Low(g)), b);
    XorBit(p2, Filled(High(g)), b);
    FilledBit(Low(g), b);
    FilledBit(High(g), b);
  }

  /** Wiping by the mask clears exactly the positions of generation g. */
  lemma WipeBits(p1: bv64, p2: bv64, g: nat, b: bv32)
    requires b < 64 && 1 <= g <= 3
    ensures var m := KeepMask(p1, p2, g);
            var was := Code(Bit(p1, b), Bit(p2, b));
            Code(Bit(And(p1, m), b), Bit(And(p2, m), b)) == if was == g then 0 else was
  {
    hide Bit, KeepMask, And;
    var m := KeepMask(p1, p2, g);
    KeepBit(p1, p2, g, b);
    AndBit(p1, m, b);
    AndBit(p2, m, b);
  }

  // ---- The filter's words as labels ----

  /** The label of bit b of the w-th pair of words. */
  function Label(d: seq<bv64>, w: nat, b: bv32): nat
    requires 2 * w + 1 < |d| && b < 64
  {
    Code(Bit(d[2 * w], b), Bit(d[2 * w + 1], b))
  }

  function Position(hash: bv32): (b: bv32)
    ensures b < 64
  {
    hash & 0x3F
  }

  /** The pair of words of a hash: the lowest bit of the position is ignored. */
  function Pair(hash: bv32, size: nat): (w: nat)
    requires size > 0 && size % 2 == 0
    ensures 2 * w + 1 < size
  {
    ((hash >> 6) as nat) % size / 2
  }

  /** A label of one of the generations lo to hi, at most three of them. */
  predicate LabelIn(l: nat, lo: int, hi: int) {
    || (lo <= hi && l == lo % 3 + 1)
    || (lo + 1 <= hi && l == (lo + 1) % 3 + 1)
    || (lo + 2 <= hi && l == (lo + 2) % 3 + 1)
  }

  type Hashes = (nat, nat, Key) -> bv32

  function LabelOf(d: seq<bv64>, hash: Hashes, tweak: nat, n: nat, key: Key): nat
    requires |d| > 0 && |d| % 2 == 0
  {
    Label(d, Pair(hash(n, tweak, key), |d|), Position(hash(n, tweak, key)))
  }

  /** Every position of a key carries a label of the generations lo to hi. */
  ghost predicate Remembers(d: seq<bv64>, hash: Hashes, tweak: nat, nHash: nat, key: Key, lo: int, hi: int)
    requires |d| > 0 && |d| % 2 == 0
  {
    forall n :: 0 <= n < nHash ==> LabelIn(LabelOf(d, hash, tweak, n, key), lo, hi)
  }

  ghost predicate Wiped(d: seq<bv64>, d': seq<bv64>, g: nat) {
    |d'| == |d| && forall w: nat, b: bv32 :: 2 * w + 1 < |d| && b < 64 ==>
      Label(d', w, b) == if Label(d, w, b) == g then 0 else Label(d, w, b)
  }

  /** Starting generation hi + 1 wipes none of the labels of generations hi - 1 and hi. */
  lemma WipeRemembers(d: seq<bv64>, d': seq<bv64>, hash: Hashes, tweak: nat, nHash: nat, key: Key, lo: int, hi: int)
    requires |d| > 0 && |d| % 2 == 0 && Wiped(d, d', (hi + 1) % 3 + 1)
    requires Remembers(d, hash, tweak, nHash, key, lo, hi) && hi - 1 <= lo
    ensures Remembers(d', hash, tweak, nHash, key, lo, hi + 1)
  {
    hide Label, Pair, Position;
    forall n | 0 <= n < nHash
      ensures LabelIn(LabelOf(d', hash, tweak, n, key), lo, hi + 1)
    {
      assert LabelIn(LabelOf(d, hash, tweak, n, key), lo, hi);
    }
  }

  ghost predicate Marked(d: seq<bv64>, d': seq<bv64>, w: nat, b: bv32, g: nat)
    requires 2 * w + 1 < |d| && b < 64
  {
    |d'| == |d| && forall x: nat, c: bv32 :: 2 * x + 1 < |d| && c < 64 ==>
      Label(d', x, c) == if x == w && c == b then g else Label(d, x, c)
  }

  /** Labelling a position for the current generation forgets nothing. */
  lemma MarkRemembers(d: seq<bv64>, d': seq<bv64>, w: nat, b: bv32, hash: Hashes, tweak: nat, nHash: nat,
                      key: Key, lo: int, hi: int)
    requires |d| > 0 && |d| % 2 == 0 && 2 * w + 1 < |d| && b < 64
    requires Marked(d, d', w, b, hi % 3 + 1) && hi - 2 <= lo <= hi
    requires Remembers(d, hash, tweak, nHash, key, lo, hi)
    ensures Remembers(d', hash, tweak, nHash, key, lo, hi)
  {
    hide Label, Pair, Position;
    forall n | 0 <= n < nHash
      ensures LabelIn(LabelOf(d', hash, tweak, n, key), lo, hi)
    {
      assert LabelIn(LabelOf(d, hash, tweak, n, key), lo, hi);
    }
  }

  lemma WipePair(d: seq<bv64>, w: nat, g: nat)
    requires 2 * w + 1 < |d| && 1 <= g <= 3
    ensures var m := KeepMask(d[2 * w], d[2 * w + 1], g);
            var d' := d[2 * w := And(d[2 * w], m)][2 * w + 1 := And(d[2 * w + 1], m)];
            forall x: nat, b: bv32 :: 2 * x + 1 < |d| && b < 64 ==>
              Label(d', x, b) == if x == w && Label(d, x, b) == g then 0 else Label(d, x, b)
  {
    hide Bit, KeepMask, And;
    forall b: bv32 | b < 64
      ensures var m := KeepMask(d[2 * w], d[2 * w + 1], g);
              var was := Code(Bit(d[2 * w], b), Bit(d[2 * w + 1], b));
              Code(Bit(And(d[2 * w], m), b), Bit(And(d[2 * w + 1], m), b)) == if was == g then 0 else was
    {
      WipeBits(d[2 * w], d[2 * w + 1], g, b);
    }
  }

  lemma WritePair(d: seq<bv64>, w: nat, b: bv32, g: nat)
    requires 2 * w + 1 < |d| && b < 64 && 1 <= g <= 3
    ensures Marked(d, d[2 * w := Write(d[2 * w], b, Low(g))][2 * w + 1 := Write(d[2 * w + 1], b, High(g))], w, b, g)
  {
    hide Bit, Write;
    forall c: bv32 | c < 64
      ensures Bit(Write(d[2 * w], b, Low(g)), c) <==> if b == c then Low(g) else Bit(d[2 * w], c)
      ensures Bit(Write(d[2 * w + 1], b, High(g)), c) <==> if b == c then High(g) else Bit(d[2 * w + 1], c)
    {
      WriteBit(d[2 * w], b, Low(g), c);
      WriteBit(d[2 * w + 1], b, High(g), c);
    }
  }

  // ---- What an insertion writes ----

  /** Whether one of the first n positions of a key is bit b of the w-th pair of words. */
  ghost predicate HitBy(size: nat, hash: Hashes, tweak: nat, n: nat, key: Key, w: nat, b: bv32)
    requires size > 0 && size % 2 == 0
  {
    exists k: nat :: k < n && Pair(hash(k, tweak, key), size) == w && Position(hash(k, tweak, key)) == b
  }

  /** The first n positions of a key carry label g, and all others are as they were. */
  ghost predicate Painted(d: seq<bv64>, d': seq<bv64>, hash: Hashes, tweak: nat, n: nat, key: Key, g: nat)
    requires |d| > 0 && |d| % 2 == 0
  {
    |d'| == |d| && forall w: nat, b: bv32 :: 2 * w + 1 < |d| && b < 64 ==>
      Label(d', w, b) == if HitBy(|d|, hash, tweak, n, key, w, b) then g else Label(d, w, b)
  }

  lemma PaintedNext(d: seq<bv64>, d1: seq<bv64>, d2: seq<bv64>, hash: Hashes, tweak: nat, n: nat, key: Key, g: nat)
    requires |d| > 0 && |d| % 2 == 0 && Painted(d, d1, hash, tweak, n, key, g)
    requires Marked(d1, d2, Pair(hash(n, tweak, key), |d|), Position(hash(n, tweak, key)), g)
    ensures Painted(d, d2, hash, tweak, n + 1, key, g)
  {
    hide Label, Pair, Position;
    forall w: nat, b: bv32 | 2 * w + 1 < |d| && b < 64
      ensures Label(d2, w, b) == if HitBy(|d|, hash, tweak, n + 1, key, w, b) then g else Label(d, w, b)
    {
      HitNext(|d|, hash, tweak, n, key, w, b);
    }
  }

  lemma HitNext(size: nat, hash: Hashes, tweak: nat, n: nat, key: Key, w: nat, b: bv32)
    requires size > 0 && size % 2 == 0
    ensures HitBy(size, hash, tweak, n + 1, key, w, b)
      <==> HitBy(size, hash, tweak, n, key, w, b)
           || (Pair(hash(n, tweak, key), size) == w && Position(hash(n, tweak, key)) == b)
  {
    hide Pair, Position;
  }

  // ---- What the filter remembers ----

  /** The keys of the current and the two preceding generations are all remembered; a key
      belongs to the generation given by its place in the history. */
  ghost predicate Memory(d: seq<bv64>, hash: Hashes, tweak: nat, nHash: nat, history: seq<Key>, perGen: nat, gen: int)
    requires |d| > 0 && |d| % 2 == 0 && perGen > 0
  {
    forall t :: 0 <= t < |history| && t / perGen >= gen - 2 ==>
      Remembers(d, hash, tweak, nHash, history[t], t / perGen, gen)
  }

  /** Generation g, one of the last three, labels with l. */
  ghost predicate LabelledBy(g: int, gen: int, l: nat) {
    gen - 2 <= g <= gen && l == g % 3 + 1
  }

  lemma LabelKept(g: int, gen: int, l: nat)
    requires LabelledBy(g, gen, l) && l != (gen + 1) % 3 + 1
    ensures LabelledBy(g, gen + 1, l)
  {
  }

  /** A position was labelled l by one of the keys of the last three generations. */
  ghost predicate Trace(size: nat, hash: Hashes, tweak: nat, nHash: nat, history: seq<Key>, perGen: nat, gen: int,
                        w: nat, b: bv32, l: nat)
    requires size > 0 && size % 2 == 0 && perGen > 0
  {
    exists t :: && 0 <= t < |history| && LabelledBy(t / perGen, gen, l)
                && HitBy(size, hash, tweak, nHash, history[t], w, b)
  }

  /** Nothing else is labelled. */
  ghost predicate Traced(d: seq<bv64>, hash: Hashes, tweak: nat, nHash: nat, history: seq<Key>, perGen: nat, gen: int)
    requires |d| > 0 && |d| % 2 == 0 && perGen > 0
  {
    forall w: nat, b: bv32 :: 2 * w + 1 < |d| && b < 64 && Label(d, w, b) != 0 ==>
      Trace(|d|, hash, tweak, nHash, history, perGen, gen, w, b, Label(d, w, b))
  }

  lemma TracedWipe(d: seq<bv64>, d': seq<bv64>, hash: Hashes, tweak: nat, nHash: nat,
                   history: seq<Key>, perGen: nat, gen: int)
    requires |d| > 0 && |d| % 2 == 0 && perGen > 0 && Wiped(d, d', (gen + 1) % 3 + 1)
    requires Traced(d, hash, tweak, nHash, history, perGen, gen)
    ensures Traced(d', hash, tweak, nHash, history, perGen, gen + 1)
  {
    hide Label, HitBy, LabelledBy;
    forall w: nat, b: bv32 | 2 * w + 1 < |d'| && b < 64 && Label(d', w, b) != 0
      ensures Trace(|d'|, hash, tweak, nHash, history, perGen, gen + 1, w, b, Label(d', w, b))
    {
      assert Label(d, w, b) != (gen + 1) % 3 + 1 && Label(d', w, b) == Label(d, w, b);
      var t :| 0 <= t < |history| && LabelledBy(t / perGen, gen, Label(d, w, b))
               && HitBy(|d|, hash, tweak, nHash, history[t], w, b);
      LabelKept(t / perGen, gen, Label(d, w, b));
      assert LabelledBy(t / perGen, gen + 1, Label(d', w, b));
    }
  }

  lemma TracedExtend(d: seq<bv64>, d': seq<bv64>, hash: Hashes, tweak: nat, nHash: nat,
                     history: seq<Key>, key: Key, perGen: nat, gen: int)
    requires |d| > 0 && |d| % 2 == 0 && perGen > 0 && |history| / perGen == gen
    requires Painted(d, d', hash, tweak, nHash, key, gen % 3 + 1)
    requires Traced(d, hash, tweak, nHash, history, perGen, gen)
    ensures Traced(d', hash, tweak, nHash, history + [key], perGen, gen)
  {
    hide Label, HitBy;
    var h := history + [key];
    forall w: nat, b: bv32 | 2 * w + 1 < |d'| && b < 64 && Label(d', w, b) != 0
      ensures Trace(|d'|, hash, tweak, nHash, h, perGen, gen, w, b, Label(d', w, b))
    {
      if HitBy(|d|, hash, tweak, nHash, key, w, b) {
        assert h[|history|] == key && LabelledBy(|history| / perGen, gen, gen % 3 + 1);
      } else {
        var t :| 0 <= t < |history| && LabelledBy(t / perGen, gen, Label(d, w, b))
                 && HitBy(|d|, hash, tweak, nHash, history[t], w, b);
        assert h[t] == history[t] && LabelledBy(t / perGen, gen, Label(d', w, b));
      }
    }
  }

  lemma TracedZero(d: seq<bv64>, hash: Hashes, tweak: nat, nHash: nat, perGen: nat)
    requires |d| > 0 && |d| % 2 == 0 && perGen > 0 && forall i :: 0 <= i < |d| ==> d[i] == 0
    ensures Traced(d, hash, tweak, nHash, [], perGen, 0)
  {
    forall w: nat, b: bv32 | 2 * w + 1 < |d| && b < 64
      ensures Label(d, w, b) == 0
    {
      ZeroBit(b);
    }
  }

  lemma ZeroBit(b: bv32)
    requires b < 64
    ensures !Bit(0, b)
  {
  }

  /** Two hashes mean the same position of a filter: the same bit, given by the six low bits,
      of the same pair of words, given by the others. */
  ghost predicate SamePlace(size: nat, h: bv32, h': bv32)
    requires size > 0
  {
    h & 0x3F == h' & 0x3F && ((h >> 6) as nat) % size / 2 == ((h' >> 6) as nat) % size / 2
  }

  /** A position of a key is shared by some key of the last three generations. */
  ghost predicate Shared(size: nat, hash: Hashes, tweak: nat, nHash: nat, history: seq<Key>, perGen: nat, gen: int,
                         h: bv32)
    requires size > 0 && perGen > 0
  {
    exists t, m :: 0 <= t < |history| && gen - 2 <= t / perGen && 0 <= m < nHash
                   && SamePlace(size, h, hash(m, tweak, history[t]))
  }

  lemma TraceShared(size: nat, hash: Hashes, tweak: nat, nHash: nat, history: seq<Key>, perGen: nat, gen: int,
                    h: bv32, l: nat)
    requires size > 0 && size % 2 == 0 && perGen > 0
    requires Trace(size, hash, tweak, nHash, history, perGen, gen, Pair(h, size), Position(h), l)
    ensures Shared(size, hash, tweak, nHash, history, perGen, gen, h)
  {
    var t :| 0 <= t < |history| && LabelledBy(t / perGen, gen, l)
             && HitBy(size, hash, tweak, nHash, history[t], Pair(h, size), Position(h));
    var m :| 0 <= m < nHash && Pair(hash(m, tweak, history[t]), size) == Pair(h, size)
             && Position(hash(m, tweak, history[t])) == Position(h);
    assert SamePlace(size, h, hash(m, tweak, history[t]));
  }

  lemma MemoryWipe(d: seq<bv64>, d': seq<bv64>, hash: Hashes, tweak: nat, nHash: nat,
                   history: seq<Key>, perGen: nat, gen: int)
    requires |d| > 0 && |d| % 2 == 0 && perGen > 0 && Wiped(d, d', (gen + 1) % 3 + 1)
    requires Memory(d, hash, tweak, nHash, history, perGen, gen)
    ensures Memory(d', hash, tweak, nHash, history, perGen, gen + 1)
  {
    hide Remembers, Wiped;
    WipedSize(d, d', (gen + 1) % 3 + 1);
    forall t | 0 <= t < |history| && t / perGen >= gen + 1 - 2
      ensures Remembers(d', hash, tweak, nHash, history[t], t / perGen, gen + 1)
    {
      WipeRemembers(d, d', hash, tweak, nHash, history[t], t / perGen, gen);
    }
  }

  lemma WipedSize(d: seq<bv64>, d': seq<bv64>, g: nat)
    requires Wiped(d, d', g)
    ensures |d'| == |d|
  {
  }

  lemma GenerationAtMost(t: nat, perGen: nat, gen: nat)
    requires perGen > 0 && t < (gen + 1) * perGen
    ensures t / perGen <= gen
  {
    var q := t / perGen;
    assert perGen * q <= t;
    QuotientBelow(perGen, q, gen + 1, t);
  }

  lemma MemoryMark(d: seq<bv64>, d': seq<bv64>, w: nat, b: bv32, hash: Hashes, tweak: nat, nHash: nat,
                   history: seq<Key>, perGen: nat, gen: nat)
    requires |d| > 0 && |d| % 2 == 0 && perGen > 0 && 2 * w + 1 < |d| && b < 64
    requires Marked(d, d', w, b, gen % 3 + 1) && |history| <= (gen + 1) * perGen
    requires Memory(d, hash, tweak, nHash, history, perGen, gen)
    ensures |d'| == |d| && Memory(d', hash, tweak, nHash, history, perGen, gen)
  {
    hide Remembers;
    forall t | 0 <= t < |history| && t / perGen >= gen - 2
      ensures Remembers(d', hash, tweak, nHash, history[t], t / perGen, gen)
    {
      GenerationAtMost(t, perGen, gen);
      MarkRemembers(d, d', w, b, hash, tweak, nHash, history[t], t / perGen, gen);
    }
  }

  lemma MemoryExtend(d: seq<bv64>, hash: Hashes, tweak: nat, nHash: nat,
                     history: seq<Key>, key: Key, perGen: nat, gen: nat)
    requires |d| > 0 && |d| % 2 == 0 && perGen > 0 && |history| / perGen == gen
    requires Memory(d, hash, tweak, nHash, history, perGen, gen) && Remembers(d, hash, tweak, nHash, key, gen, gen)
    ensures Memory(d, hash, tweak, nHash, history + [key], perGen, gen)
  {
    hide Remembers;
  }

  lemma RemembersNext(d: seq<bv64>, d': seq<bv64>, hash: Hashes, tweak: nat, n: nat, key: Key, gen: nat)
    requires |d| > 0 && |d| % 2 == 0 && Remembers(d, hash, tweak, n, key, gen, gen)
    requires Marked(d, d', Pair(hash(n, tweak, key), |d|), Position(hash(n, tweak, key)), gen % 3 + 1)
    ensures |d'| == |d| && Remembers(d', hash, tweak, n + 1, key, gen, gen)
  {
    hide Label, Pair, Position;
    MarkRemembers(d, d', Pair(hash(n, tweak, key), |d|), Position(hash(n, tweak, key)), hash, tweak, n, key, gen, gen);
  }

  /** A generation holds at least half of nElements, so the last nElements keys are all in
      the current generation or the two before it. */
  lemma LastElements(size: nat, nElements: nat, perGen: nat, gen: nat, entries: nat, t: nat)
    requires perGen == (nElements + 1) / 2 && nElements >= 1
    requires size == gen * perGen + entries && 1 <= entries <= perGen && size - nElements <= t < size
    ensures t / perGen >= gen - 2
  {
    if gen >= 2 {
      LastGenerations(t, perGen, gen, gen * perGen);
    }
  }

  lemma LastGenerations(t: int, perGen: int, gen: int, start: int)
    requires perGen > 0 && gen >= 2 && t >= 0 && start == gen * perGen && start - 2 * perGen <= t
    ensures t / perGen >= gen - 2
  {
    var q := t / perGen;
    MulDistribute(perGen, gen - 2, 2);
    MulDistribute(perGen, q, 1);
    QuotientBelow(perGen, gen - 2, q + 1, t);
  }

  class Filter {
    const hash: Hashes
    const nHashFuncs: nat
    const nEntriesPerGeneration: nat
    const data: array<bv64>
    var nEntriesThisGeneration: nat
    var nGeneration: nat
    var nTweak: nat
    /** The keys inserted since the last reset, and how often a generation was started. */
    ghost var history: seq<Key>
    ghost var rolls: nat

    /** The labels, the current one included, are those of the history. */
    ghost predicate Labelled()
      reads this, data
    {
      && data.Length > 0 && data.Length % 2 == 0 && nEntriesPerGeneration > 0
      && nGeneration == rolls % 3 + 1
      && Memory(data[..], hash, nTweak, nHashFuncs, history, nEntriesPerGeneration, rolls)
    }

    ghost predicate Valid()
      reads this, data
    {
      && Labelled()
      && Traced(data[..], hash, nTweak, nHashFuncs, history, nEntriesPerGeneration, rolls)
      && 0 <= nEntriesThisGeneration <= nEntriesPerGeneration
      && |history| == rolls * nEntriesPerGeneration + nEntriesThisGeneration
      && (history != [] ==> nEntriesThisGeneration > 0)
    }

    /** A key of the current generation or one of the two before it. */
    ghost predicate Recent(t: int)
      requires nEntriesPerGeneration > 0
      reads this
    {
      0 <= t < |history| && t / nEntriesPerGeneration >= rolls - 2
    }

    constructor (nElements: nat, nHashFuncs: nat, nFilterBits: nat, hash: Hashes, tweak: nat)
      requires nElements >= 1 && nFilterBits >= 1
      ensures Valid() && fresh(data) && history == [] && this.hash == hash && this.nHashFuncs == nHashFuncs
      ensures nEntriesPerGeneration == (nElements + 1) / 2 && data.Length == 2 * ((nFilterBits + 63) / 64)
    {
      this.hash, this.nHashFuncs, nTweak := hash, nHashFuncs, tweak;
      nEntriesPerGeneration := (nElements + 1) / 2;
      data := new bv64[2 * ((nFilterBits + 63) / 64)](_ => 0);
      nEntriesThisGeneration, nGeneration := 0, 1;
      history, rolls := [], 0;
      new;
      TracedZero(data[..], hash, nTweak, nHashFuncs, nEntriesPerGeneration);
    }

    method Reset(tweak: nat)
      requires Valid()
      modifies this, data
      ensures Valid() && history == [] && nTweak == tweak
      ensures forall i :: 0 <= i < data.Length ==> data[i] == 0
    {
      nTweak := tweak;
      nEntriesThisGeneration, nGeneration := 0, 1;
      history, rolls := [], 0;
      for i := 0 to data.Length
        modifies data
        invariant forall k :: 0 <= k < i ==> data[k] == 0
      {
        data[i] := 0;
      }
      TracedZero(data[..], hash, nTweak, nHashFuncs, nEntriesPerGeneration);
    }

    /** Clears every position labelled with a generation. */
    method Wipe(g: nat)
      requires data.Length % 2 == 0 && 1 <= g <= 3
      modifies data
      ensures Wiped(old(data[..]), data[..], g)
    {
      hide Bit, KeepMask, And;
      var p := 0;
      ghost var d := data[..];
      while p < data.Length
        invariant 0 <= p <= data.Length && p % 2 == 0
        invariant forall w: nat, b: bv32 :: 2 * w + 1 < data.Length && b < 64 ==>
          Label(data[..], w, b) == if 2 * w < p && Label(d, w, b) == g then 0 else Label(d, w, b)
      {
        var p1, p2 := data[p], data[p + 1];
        var mask := KeepMask(p1, p2, g);
        WipePair(data[..], p / 2, g);
        data[p] := And(p1, mask);
        data[p + 1] := And(p2, mask);
        p := p + 2;
      }
    }

    /** Labels every position of a key for the current generation. */
    method Mark(key: Key)
      requires Labelled() && |history| <= (rolls + 1) * nEntriesPerGeneration
      modifies data
      ensures Labelled() && Remembers(data[..], hash, nTweak, nHashFuncs, key, rolls, rolls)
      ensures Painted(old(data[..]), data[..], hash, nTweak, nHashFuncs, key, nGeneration)
    {
      hide Memory, Label, Write, Marked, Remembers, Painted;
      NothingYet(key);
      for n := 0 to nHashFuncs
        invariant Labelled() && Remembers(data[..], hash, nTweak, n, key, rolls, rolls)
        invariant Painted(old(data[..]), data[..], hash, nTweak, n, key, nGeneration)
      {
        var h := hash(n, nTweak, key);
        var bit, w := Position(h), Pair(h, data.Length);
        ghost var d := data[..];
        WritePair(d, w, bit, nGeneration);
        data[2 * w] := Write(data[2 * w], bit, Low(nGeneration));
        data[2 * w + 1] := Write(data[2 * w + 1], bit, High(nGeneration));
        assert data[..] == d[2 * w := Write(d[2 * w], bit, Low(nGeneration))]
                            [2 * w + 1 := Write(d[2 * w + 1], bit, High(nGeneration))];
        MemoryMark(d, data[..], w, bit, hash, nTweak, nHashFuncs, history, nEntriesPerGeneration, rolls);
        RemembersNext(d, data[..], hash, nTweak, n, key, rolls);
        PaintedNext(old(data[..]), d, data[..], hash, nTweak, n, key, nGeneration);
      }
    }

    lemma NothingYet(key: Key)
      requires data.Length > 0 && data.Length % 2 == 0
      ensures Remembers(data[..], hash, nTweak, 0, key, rolls, rolls)
      ensures Painted(data[..], data[..], hash, nTweak, 0, key, nGeneration)
    {
      hide Label;
    }

    /** Inserts a key, starting a new generation when the current one is full. Exactly the
        key's positions are labelled, after the labels of the new generation's number have
        been wiped if one was started. */
    method Insert(key: Key) returns (ghost wiped: seq<bv64>)
      requires Valid()
      modifies this, data
      ensures Valid() && history == old(history) + [key] && nTweak == old(nTweak)
      ensures if old(nEntriesThisGeneration) == nEntriesPerGeneration
              then Wiped(old(data[..]), wiped, nGeneration) else wiped == old(data[..])
      ensures |wiped| == data.Length && Painted(wiped, data[..], hash, nTweak, nHashFuncs, key, nGeneration)
    {
      hide Memory, Remembers, Wiped, Painted, Traced;
      if nEntriesThisGeneration == nEntriesPerGeneration {
        NextGeneration();
      }
      nEntriesThisGeneration := nEntriesThisGeneration + 1;
      PlaceOf(rolls, nEntriesPerGeneration, nEntriesThisGeneration - 1, |history|);
      wiped := data[..];
      Mark(key);
      MemoryExtend(data[..], hash, nTweak, nHashFuncs, history, key, nEntriesPerGeneration, rolls);
      TracedExtend(wiped, data[..], hash, nTweak, nHashFuncs, history, key, nEntriesPerGeneration, rolls);
      history := history + [key];
    }

    method NextGeneration()
      requires Valid() && nEntriesThisGeneration == nEntriesPerGeneration
      modifies this, data
      ensures Labelled() && rolls == old(rolls) + 1 && nEntriesThisGeneration == 0
      ensures history == old(history) && nTweak == old(nTweak) && |history| == rolls * nEntriesPerGeneration
      ensures Wiped(old(data[..]), data[..], nGeneration)
      ensures Traced(data[..], hash, nTweak, nHashFuncs, history, nEntriesPerGeneration, rolls)
    {
      hide Memory, Remembers, Wiped, Traced;
      nEntriesThisGeneration := 0;
      nGeneration := nGeneration + 1;
      if nGeneration == 4 {
        nGeneration := 1;
      }
      Wipe(nGeneration);
      MemoryWipe(old(data[..]), data[..], hash, nTweak, nHashFuncs, history, nEntriesPerGeneration, rolls);
      WipedSize(old(data[..]), data[..], nGeneration);
      TracedWipe(old(data[..]), data[..], hash, nTweak, nHashFuncs, history, nEntriesPerGeneration, rolls);
      rolls := rolls + 1;
    }

    /** Whether every position of a key is labelled. True of every key of the current and
        the two preceding generations. */
    method Contains(key: Key) returns (r: bool)
      requires Valid()
      ensures r <==> forall n :: 0 <= n < nHashFuncs ==> LabelOf(data[..], hash, nTweak, n, key) != 0
      ensures (exists t :: Recent(t) && history[t] == key) ==> r
      ensures r ==> forall n :: 0 <= n < nHashFuncs ==>
        Shared(data.Length, hash, nTweak, nHashFuncs, history, nEntriesPerGeneration, rolls, hash(n, nTweak, key))
    {
      RecentLabelled(key);
      LabelledShared(key);
      hide Memory, Remembers, Bit, Or, Traced, Shared;
      for n := 0 to nHashFuncs
        invariant forall k :: 0 <= k < n ==> LabelOf(data[..], hash, nTweak, k, key) != 0
      {
        var h := hash(n, nTweak, key);
        var bit, w := Position(h), Pair(h, data.Length);
        OrBit(data[2 * w], data[2 * w + 1], bit);
        assert LabelOf(data[..], hash, nTweak, n, key) == Code(Bit(data[2 * w], bit), Bit(data[2 * w + 1], bit));
        if !Bit(Or(data[2 * w], data[2 * w + 1]), bit) {
          return false;
        }
      }
      return true;
    }

    lemma LabelledShared(key: Key)
      requires Valid()
      ensures forall n :: 0 <= n < nHashFuncs && LabelOf(data[..], hash, nTweak, n, key) != 0 ==>
        Shared(data.Length, hash, nTweak, nHashFuncs, history, nEntriesPerGeneration, rolls, hash(n, nTweak, key))
    {
      hide Memory, Label, Pair, Position, Trace, Shared;
      forall n | 0 <= n < nHashFuncs && LabelOf(data[..], hash, nTweak, n, key) != 0
        ensures Shared(data.Length, hash, nTweak, nHashFuncs, history, nEntriesPerGeneration, rolls,
                       hash(n, nTweak, key))
      {
        var h := hash(n, nTweak, key);
        TraceShared(data.Length, hash, nTweak, nHashFuncs, history, nEntriesPerGeneration, rolls, h,
                    Label(data[..], Pair(h, data.Length), Position(h)));
      }
    }

    lemma RecentLabelled(key: Key)
      requires Valid()
      ensures (exists t :: Recent(t) && history[t] == key) ==>
        forall n :: 0 <= n < nHashFuncs ==> LabelOf(data[..], hash, nTweak, n, key) != 0
    {
      hide LabelOf;
      forall t, n | Recent(t) && history[t] == key && 0 <= n < nHashFuncs
        ensures LabelOf(data[..], hash, nTweak, n, key) != 0
      {
        assert Remembers(data[..], hash, nTweak, nHashFuncs, history[t], t / nEntriesPerGeneration, rolls);
        assert LabelIn(LabelOf(data[..], hash, nTweak, n, history[t]), t / nEntriesPerGeneration, rolls);
      }
    }

    /** The last nElements keys inserted since the reset are recent. */
    lemma LastAreRecent(nElements: nat, t: int)
      requires Valid() && nElements >= 1 && nEntriesPerGeneration == (nElements + 1) / 2
      requires 0 <= t < |history| && t >= |history| - nElements
      ensures Recent(t)
    {
      hide Memory;
      LastElements(|history|, nElements, nEntriesPerGeneration, rolls, nEntriesThisGeneration, t);
    }
  }

  lemma PlaceOf(gen: nat, perGen: nat, entries: nat, size: nat)
    requires perGen > 0 && entries < perGen && size == gen * perGen + entries
    ensures size / perGen == gen && size <= (gen + 1) * perGen
  {
    DivUnique(size, perGen, gen, entries);
  }

  /** From a fresh filter, after any insertions, every one of the last nElements keys is
      reported as contained. */
  method LastKeysContained(nElements: nat, nHashFuncs: nat, nFilterBits: nat, hash: Hashes, tweak: nat,
                           keys: seq<Key>, i: nat)
    returns (r: bool)
    requires nElements >= 1 && nFilterBits >= 1 && |keys| - nElements <= i < |keys|
    ensures r
  {
    var f := new Filter(nElements, nHashFuncs, nFilterBits, hash, tweak);
    for k := 0 to |keys|
      invariant f.Valid() && f.history == keys[..k] && fresh(f) && fresh(f.data)
    {
      ghost var _ := f.Insert(keys[k]);
    }
    assert keys[..|keys|] == keys;
    f.LastAreRecent(nElements, i);
    r := f.Contains(keys[i]);
  }
}
