/** Invertible Bloom lookup tables: what a cell holds, subtraction of tables, and
    listing the keys on which two sets differ by peeling. */
module Iblt {
  import opened Bits
  import opened Finite
  import opened Powers

  /** Keys, checks and the bytes of values are numbers; see SumsFit for their width. */
  datatype Params = Params(nHash: nat, hash: (nat, nat) -> nat, checksum: nat -> nat, keycheckMask: nat)

  datatype Cell = Cell(count: int, keySum: nat, keyCheck: nat, valueSum: seq<nat>)

  /** An insertion (sign 1) or erasure (sign -1) of a key. */
  datatype Op = Op(plus: bool, key: nat)

  function Sign(plus: bool): int {
    if plus then 1 else -1
  }

  /** The masked checksum of a key. */
  function Check(p: Params, key: nat): nat {
    BitAnd(p.checksum(key), p.keycheckMask)
  }

  const EMPTY := Cell(0, 0, 0, [])

  predicate IsPure(p: Params, c: Cell) {
    (c.count == 1 || c.count == -1) && c.keyCheck == Check(p, c.keySum)
  }

  predicate IsEmpty(c: Cell) {
    c.count == 0 && c.keySum == 0 && c.keyCheck == 0
  }

  function Resized(s: seq<nat>, n: nat): (r: seq<nat>)
    ensures |r| == if |s| < n then n else |s|
  {
    if |s| < n then s + seq(n - |s|, _ => 0) else s
  }

  function AddValue(sum: seq<nat>, v: seq<nat>): seq<nat> {
    var s := Resized(sum, |v|);
    seq(|s|, i requires 0 <= i < |s| => if i < |v| then BitXor(s[i], v[i]) else s[i])
  }

  /** A value added to nothing is the value, and adding it again takes it away, up to the zeros
      a shorter sum was filled up with. */
  lemma ValueTwice(sum: seq<nat>, v: seq<nat>)
    ensures AddValue([], v) == v
    ensures AddValue(AddValue(sum, v), v) == sum + seq(if |v| > |sum| then |v| - |sum| else 0, _ => 0)
  {
    var padded := sum + seq(if |v| > |sum| then |v| - |sum| else 0, _ => 0);
    hide BitXor;
    forall i | 0 <= i < |v|
      ensures BitXor(0, v[i]) == v[i] && BitXor(BitXor(padded[i], v[i]), v[i]) == padded[i]
    {
      XorZero(v[i], 0);
      XorLaws(padded[i], v[i], 0);
    }
  }

  /** A cell after a key and value have been mixed in. */
  function Mixed(p: Params, c: Cell, delta: int, key: nat, check: nat, v: seq<nat>): Cell {
    var keyCheck := BitAnd(BitXor(c.keyCheck, check), p.keycheckMask);
    var d := Cell(c.count + delta, BitXor(c.keySum, key), keyCheck, c.valueSum);
    d.(valueSum := if IsEmpty(d) then [] else AddValue(d.valueSum, v))
  }

  // ---- Where a key goes ----

  function PerHash(p: Params, size: nat): nat {
    if p.nHash == 0 then 0 else size / p.nHash
  }

  /** The cell of a key for one hash function: each has its own stretch of the table. */
  function Pos(p: Params, size: nat, i: nat, key: nat): nat
    requires PerHash(p, size) > 0
  {
    i * PerHash(p, size) + p.hash(i, key) % PerHash(p, size)
  }

  ghost predicate TouchedBy(p: Params, size: nat, key: nat, j: int, hashes: nat) {
    PerHash(p, size) > 0 && exists i: nat :: i < hashes && Pos(p, size, i, key) == j
  }

  ghost predicate Touches(p: Params, size: nat, key: nat, j: int) {
    TouchedBy(p, size, key, j, p.nHash)
  }

  /** One of the hash functions sends a key to a cell: the table is split evenly among them, and
      each picks a cell of its own part by the remainder of the hash. */
  ghost predicate HashesTo(p: Params, size: nat, key: nat, j: int) {
    p.nHash > 0 && size / p.nHash > 0
    && exists i: nat :: i < p.nHash && j == i * (size / p.nHash) + p.hash(i, key) % (size / p.nHash)
  }

  lemma PosIs(p: Params, size: nat, i: nat, key: nat)
    requires PerHash(p, size) > 0
    ensures p.nHash > 0 && size / p.nHash > 0
    ensures Pos(p, size, i, key) == i * (size / p.nHash) + p.hash(i, key) % (size / p.nHash)
  {
  }

  /** A key touches exactly the cells its hashes send it to. */
  lemma TouchesHashed(p: Params, size: nat, key: nat, j: int)
    ensures Touches(p, size, key, j) <==> HashesTo(p, size, key, j)
  {
    if Touches(p, size, key, j) {
      var i: nat :| i < p.nHash && Pos(p, size, i, key) == j;
      PosIs(p, size, i, key);
    }
    if HashesTo(p, size, key, j) {
      var i: nat :| i < p.nHash && j == i * (size / p.nHash) + p.hash(i, key) % (size / p.nHash);
      PosIs(p, size, i, key);
      assert Pos(p, size, i, key) == j;
    }
  }

  lemma StretchBound(i: int, n: int, w: int, r: int)
    requires 0 <= i < n && 0 <= r < w
    ensures i * w <= i * w + r < (i + 1) * w <= n * w
  {
    var d := n - (i + 1);
    assert n * w == (i + 1) * w + d * w;
    assert d * w >= 0;
  }

  lemma PosBound(p: Params, size: nat, i: nat, key: nat)
    requires PerHash(p, size) > 0 && i < p.nHash
    ensures Pos(p, size, i, key) < size
  {
    var w := PerHash(p, size);
    StretchBound(i, p.nHash, w, p.hash(i, key) % w);
    assert p.nHash * w <= size;
  }

  lemma PosDistinct(p: Params, size: nat, i: nat, i': nat, key: nat)
    requires PerHash(p, size) > 0 && i < i'
    ensures Pos(p, size, i, key) < Pos(p, size, i', key)
  {
    var w := PerHash(p, size);
    StretchBound(i, i', w, p.hash(i, key) % w);
  }

  // ---- What a cell holds ----

  /** The part of a cell that keys determine. */
  datatype Sums = Sums(count: int, keySum: nat, keyCheck: nat)

  const ZERO := Sums(0, 0, 0)

  function Core(c: Cell): Sums {
    Sums(c.count, c.keySum, c.keyCheck)
  }

  function Plus(a: Sums, b: Sums): Sums {
    Sums(a.count + b.count, BitXor(a.keySum, b.keySum), BitXor(a.keyCheck, b.keyCheck))
  }

  function Minus(a: Sums, b: Sums): Sums {
    Sums(a.count - b.count, BitXor(a.keySum, b.keySum), BitXor(a.keyCheck, b.keyCheck))
  }

  function Of(p: Params, op: Op): Sums {
    Sums(Sign(op.plus), op.key, Check(p, op.key))
  }

  lemma PlusCommutes(a: Sums, b: Sums)
    ensures Plus(a, b) == Plus(b, a)
  {
    hide BitXor;
    XorZero(a.keySum, b.keySum);
    XorZero(a.keyCheck, b.keyCheck);
  }

  lemma PlusAssociates(a: Sums, b: Sums, c: Sums)
    ensures Plus(Plus(a, b), c) == Plus(a, Plus(b, c))
    ensures Minus(Plus(a, b), c) == Plus(a, Minus(b, c))
  {
    hide BitXor;
    XorLaws(a.keySum, b.keySum, c.keySum);
    XorLaws(a.keyCheck, b.keyCheck, c.keyCheck);
  }

  lemma PlusZero(a: Sums)
    ensures Plus(a, ZERO) == a && Plus(ZERO, a) == a && Minus(a, ZERO) == a
  {
    hide BitXor;
    XorZero(a.keySum, 0);
    XorZero(a.keyCheck, 0);
  }

  // ---- Totals over sequences and sets of keys ----

  /** What a key contributes to cell j. */
  ghost function Share(p: Params, size: nat, j: int, op: Op): Sums {
    if Touches(p, size, op.key, j) then Of(p, op) else ZERO
  }

  ghost function SeqTotal(p: Params, size: nat, j: int, ops: seq<Op>): Sums {
    if ops == [] then ZERO else Plus(SeqTotal(p, size, j, ops[..|ops| - 1]), Share(p, size, j, ops[|ops| - 1]))
  }

  ghost function SetTotal(p: Params, size: nat, j: int, ops: set<Op>): Sums
    decreases |ops|
  {
    if ops == {} then ZERO
    else
      var op :| op in ops;
      Plus(SetTotal(p, size, j, ops - {op}), Share(p, size, j, op))
  }

  /** Any member may be taken out first. */
  lemma {:induction false} SetTotalWithout(p: Params, size: nat, j: int, ops: set<Op>, op: Op)
    requires op in ops
    ensures SetTotal(p, size, j, ops) == Plus(SetTotal(p, size, j, ops - {op}), Share(p, size, j, op))
    decreases |ops|
  {
    hide Share, Plus;
    var first :| first in ops
      && SetTotal(p, size, j, ops) == Plus(SetTotal(p, size, j, ops - {first}), Share(p, size, j, first));
    if first != op {
      SetTotalWithout(p, size, j, ops - {first}, op);
      SetTotalWithout(p, size, j, ops - {op}, first);
      assert ops - {first} - {op} == ops - {op} - {first};
      var r, x, y := SetTotal(p, size, j, ops - {op} - {first}), Share(p, size, j, first), Share(p, size, j, op);
      PlusAssociates(r, y, x);
      PlusCommutes(x, y);
      PlusAssociates(r, x, y);
    }
  }

  /** The same keys in any order give the same cells. */
  lemma {:induction false} OrderDoesNotMatter(p: Params, size: nat, j: int, ops: seq<Op>, ops': seq<Op>)
    requires multiset(ops) == multiset(ops')
    ensures SeqTotal(p, size, j, ops) == SeqTotal(p, size, j, ops')
    decreases |ops|
  {
    hide Share, Plus;
    if ops == [] {
      assert |multiset(ops)| == |multiset(ops')|;
    } else {
      var n := |ops| - 1;
      var op := ops[n];
      assert ops == ops[..n] + [op];
      assert op in multiset(ops);
      var i :| 0 <= i < |ops'| && ops'[i] == op;
      assert ops' == ops'[..i] + [op] + ops'[i + 1..];
      assert multiset(ops'[..i] + ops'[i + 1..]) == multiset(ops') - multiset{op};
      OrderDoesNotMatter(p, size, j, ops[..n], ops'[..i] + ops'[i + 1..]);
      TakeOut(p, size, j, ops'[..i], op, ops'[i + 1..]);
    }
  }

  lemma {:induction false} TakeOut(p: Params, size: nat, j: int, a: seq<Op>, op: Op, b: seq<Op>)
    ensures SeqTotal(p, size, j, a + [op] + b) == Plus(SeqTotal(p, size, j, a + b), Share(p, size, j, op))
    decreases |b|
  {
    hide Share, Plus;
    if b == [] {
      assert a + [op] + b == a + [op] && a + b == a;
      assert (a + [op])[..|a|] == a;
    } else {
      var n := |b| - 1;
      assert (a + [op] + b)[..|a| + 1 + n] == a + [op] + b[..n];
      assert (a + b)[..|a| + n] == a + b[..n];
      TakeOut(p, size, j, a, op, b[..n]);
      var r, x, y := SeqTotal(p, size, j, a + b[..n]), Share(p, size, j, op), Share(p, size, j, b[n]);
      PlusAssociates(r, x, y);
      PlusCommutes(x, y);
      PlusAssociates(r, y, x);
    }
  }

  /** A sequence without repetitions is a set. */
  lemma {:induction false} DistinctTotal(p: Params, size: nat, j: int, ops: seq<Op>)
    requires Distinct(ops)
    ensures SeqTotal(p, size, j, ops) == SetTotal(p, size, j, set op | op in ops)
  {
    hide Share, Plus;
    if ops != [] {
      var n := |ops| - 1;
      var all := set op | op in ops;
      DistinctTotal(p, size, j, ops[..n]);
      SetTotalWithout(p, size, j, all, ops[n]);
      assert all - {ops[n]} == set op | op in ops[..n];
    }
  }

  /** The sums of 64-bit keys and of checks under a 32-bit mask fit the same widths. */
  lemma {:induction false} SumsFit(p: Params, size: nat, j: int, ops: set<Op>)
    requires p.keycheckMask < Pow2(32) && forall op :: op in ops ==> op.key < Pow2(64)
    ensures SetTotal(p, size, j, ops).keySum < Pow2(64) && SetTotal(p, size, j, ops).keyCheck < Pow2(32)
    decreases |ops|
  {
    PowPositive(2, 64);
    PowPositive(2, 32);
    if ops == {} {
      EmptyTotal(p, size, j);
    } else {
      var op := PickOne(ops);
      SetTotalWithout(p, size, j, ops, op);
      SumsFit(p, size, j, ops - {op});
      hide SetTotal, Pow, Touches, BitXor, BitAnd;
      var r, x := SetTotal(p, size, j, ops - {op}), Share(p, size, j, op);
      AndAtMost(p.checksum(op.key), p.keycheckMask);
      XorBound(r.keySum, x.keySum, 64);
      XorBound(r.keyCheck, x.keyCheck, 32);
    }
  }

  /** Erasing undoes inserting, whatever happened in between. */
  lemma EraseUndoes(p: Params, size: nat, j: int, a: seq<Op>, op: Op, b: seq<Op>)
    ensures SeqTotal(p, size, j, a + [op] + b + [Op(!op.plus, op.key)]) == SeqTotal(p, size, j, a + b)
  {
    hide Share, Plus;
    var ops := a + [op] + b;
    var undo := Op(!op.plus, op.key);
    assert (ops + [undo])[..|ops|] == ops;
    TakeOut(p, size, j, a, op, b);
    var r := SeqTotal(p, size, j, a + b);
    ShareUndone(p, size, j, op);
    PlusAssociates(r, Share(p, size, j, op), Share(p, size, j, undo));
    PlusZero(r);
  }

  function Negative(x: Sums): Sums {
    Minus(ZERO, x)
  }

  lemma OfNegative(p: Params, key: nat)
    ensures Of(p, Op(false, key)) == Negative(Of(p, Op(true, key)))
    ensures Of(p, Op(true, key)) == Negative(Of(p, Op(false, key)))
  {
    hide BitXor, Check;
    XorZero(key, 0);
    XorZero(Check(p, key), 0);
  }

  lemma PlusNegative(a: Sums, x: Sums)
    ensures Plus(a, Negative(x)) == Minus(a, x) && Minus(x, x) == ZERO
  {
    hide BitXor;
    XorZero(x.keySum, 0);
    XorZero(x.keyCheck, 0);
    XorLaws(0, x.keySum, 0);
    XorLaws(0, x.keyCheck, 0);
  }

  lemma ShareUndone(p: Params, size: nat, j: int, op: Op)
    ensures Plus(Share(p, size, j, op), Share(p, size, j, Op(!op.plus, op.key))) == ZERO
  {
    hide Touches, Of, Plus, Minus, BitXor;
    OfNegative(p, op.key);
    hide Negative;
    PlusNegative(Of(p, op), Of(p, op));
    PlusZero(ZERO);
  }

  // ---- Subtraction ----

  ghost function Inserted(keys: set<nat>): set<Op> {
    set k | k in keys :: Op(true, k)
  }

  /** The keys of a as insertions and those of b as erasures, without the common ones. */
  ghost function Difference(a: set<nat>, b: set<nat>): set<Op> {
    (set k | k in a && k !in b :: Op(true, k)) + (set k | k in b && k !in a :: Op(false, k))
  }

  lemma MinusCommon(a: Sums, b: Sums, x: Sums)
    ensures Minus(Plus(a, x), Plus(b, x)) == Minus(a, b)
    ensures Minus(a, Plus(b, x)) == Minus(Minus(a, b), x)
  {
    hide BitXor;
    XorLaws(a.keySum, b.keySum, x.keySum);
    XorLaws(a.keyCheck, b.keyCheck, x.keyCheck);
    XorLaws(a.keySum, x.keySum, BitXor(b.keySum, x.keySum));
    XorLaws(a.keyCheck, x.keyCheck, BitXor(b.keyCheck, x.keyCheck));
    XorZero(x.keySum, BitXor(b.keySum, x.keySum));
    XorZero(x.keyCheck, BitXor(b.keyCheck, x.keyCheck));
    XorLaws(b.keySum, x.keySum, 0);
    XorLaws(b.keyCheck, x.keyCheck, 0);
  }

  /** Subtracting the table of one set from that of another gives the table of their
      difference: what they have in common cancels. */
  lemma {:induction false} DifferenceTotal(p: Params, size: nat, j: int, a: set<nat>, b: set<nat>)
    ensures Minus(SetTotal(p, size, j, Inserted(a)), SetTotal(p, size, j, Inserted(b)))
         == SetTotal(p, size, j, Difference(a, b))
    decreases |b|
  {
    hide Share, Plus, Minus, SetTotal;
    if b == {} {
      assert Difference(a, b) == Inserted(a);
      assert Inserted(b) == {};
      EmptyTotal(p, size, j);
      PlusZero(SetTotal(p, size, j, Inserted(a)));
    } else {
      var k := PickOne(b);
      var b' := b - {k};
      assert Inserted(b') == Inserted(b) - {Op(true, k)};
      SetTotalWithout(p, size, j, Inserted(b), Op(true, k));
      var x := Share(p, size, j, Op(true, k));
      if k in a {
        var a' := a - {k};
        assert Inserted(a') == Inserted(a) - {Op(true, k)};
        SetTotalWithout(p, size, j, Inserted(a), Op(true, k));
        assert Difference(a, b) == Difference(a', b');
        DifferenceTotal(p, size, j, a', b');
        MinusCommon(SetTotal(p, size, j, Inserted(a')), SetTotal(p, size, j, Inserted(b')), x);
      } else {
        assert Difference(a, b') == Difference(a, b) - {Op(false, k)};
        SetTotalWithout(p, size, j, Difference(a, b), Op(false, k));
        DifferenceTotal(p, size, j, a, b');
        MinusCommon(SetTotal(p, size, j, Inserted(a)), SetTotal(p, size, j, Inserted(b')), x);
        ShareNegative(p, size, j, k, SetTotal(p, size, j, Difference(a, b')));
      }
    }
  }

  lemma EmptyTotal(p: Params, size: nat, j: int)
    ensures SetTotal(p, size, j, {}) == ZERO
  {
  }

  lemma ShareNegative(p: Params, size: nat, j: int, key: nat, r: Sums)
    ensures Plus(r, Share(p, size, j, Op(false, key))) == Minus(r, Share(p, size, j, Op(true, key)))
  {
    hide Touches, Of, Plus, Minus;
    OfNegative(p, key);
    hide Negative;
    PlusNegative(r, Of(p, Op(true, key)));
    PlusZero(r);
  }

  // ---- Cells that show a single key or none ----

  ghost predicate Pure(p: Params, s: Sums) {
    (s.count == 1 || s.count == -1) && s.keyCheck == Check(p, s.keySum)
  }

  /** A key is the only one of its set in cell j. */
  ghost predicate Alone(p: Params, size: nat, j: int, ops: set<Op>, op: Op) {
    op in ops && Touches(p, size, op.key, j) && forall x :: x in ops && Touches(p, size, x.key, j) ==> x == op
  }

  ghost predicate Untouched(p: Params, size: nat, j: int, ops: set<Op>) {
    forall x :: x in ops ==> !Touches(p, size, x.key, j)
  }

  lemma {:induction false} UntouchedTotal(p: Params, size: nat, j: int, ops: set<Op>)
    requires Untouched(p, size, j, ops)
    ensures SetTotal(p, size, j, ops) == ZERO
    decreases |ops|
  {
    hide Plus, Of, Touches;
    if ops != {} {
      var op := PickOne(ops);
      SetTotalWithout(p, size, j, ops, op);
      UntouchedTotal(p, size, j, ops - {op});
      PlusZero(ZERO);
    }
  }

  lemma AloneTotal(p: Params, size: nat, j: int, ops: set<Op>, op: Op)
    requires Alone(p, size, j, ops, op)
    ensures SetTotal(p, size, j, ops) == Of(p, op)
  {
    hide Plus, Touches, SetTotal, Check;
    SetTotalWithout(p, size, j, ops, op);
    UntouchedTotal(p, size, j, ops - {op});
    PlusZero(Of(p, op));
  }

  /** What can be left after taking out, one at a time, keys that are alone in a cell. */
  ghost predicate Peeled(p: Params, size: nat, ops: set<Op>, rest: set<Op>)
    decreases |ops - rest|
  {
    rest == ops
    || exists op, j {:trigger Alone(p, size, j, rest + {op}, op)} ::
         && op in ops - rest && 0 <= j < size && Alone(p, size, j, rest + {op}, op)
         && (SmallerRest(ops, rest, op); Peeled(p, size, ops, rest + {op}))
  }

  lemma SmallerRest(ops: set<Op>, rest: set<Op>, op: Op)
    requires op in ops - rest
    ensures |ops - (rest + {op})| < |ops - rest|
  {
    assert ops - (rest + {op}) == (ops - rest) - {op};
  }

  lemma PeeledNext(p: Params, size: nat, ops: set<Op>, rest: set<Op>, op: Op, j: int)
    requires Peeled(p, size, ops, rest) && rest <= ops && 0 <= j < size && Alone(p, size, j, rest, op)
    ensures Peeled(p, size, ops, rest - {op})
  {
    hide Touches;
    assert rest - {op} + {op} == rest;
    assert op in ops - (rest - {op});
    assert Alone(p, size, j, rest - {op} + {op}, op);
  }

  /** Nothing that peeling can leave looks like a single key, or like none, where it is not. */
  ghost predicate Exact(p: Params, size: nat, ops: set<Op>) {
    forall rest, j {:trigger SetTotal(p, size, j, rest)} :: Peeled(p, size, ops, rest) && 0 <= j < size ==>
      && (Pure(p, SetTotal(p, size, j, rest)) ==> exists op :: Alone(p, size, j, rest, op))
      && (SetTotal(p, size, j, rest) == ZERO ==> Untouched(p, size, j, rest))
  }

  /** No key of a set is alone in any cell: peeling cannot start on it. */
  ghost predicate Stuck(p: Params, size: nat, ops: set<Op>) {
    forall j, op :: 0 <= j < size ==> !Alone(p, size, j, ops, op)
  }

  /** Peeling cannot get stuck: every nonempty subset has a cell with exactly one of its keys. */
  ghost predicate Peelable(p: Params, size: nat, ops: set<Op>) {
    forall some :: some <= ops && Stuck(p, size, some) ==> some == {}
  }

  /** A subset on which peeling cannot start is never touched by peeling the whole. */
  lemma {:induction false} StuckSurvives(p: Params, size: nat, ops: set<Op>, rest: set<Op>, some: set<Op>)
    requires Peeled(p, size, ops, rest) && some <= ops && Stuck(p, size, some)
    ensures some <= rest
    decreases |ops - rest|
  {
    hide Touches;
    if rest != ops {
      var op, j :| && op in ops - rest && 0 <= j < size && Alone(p, size, j, rest + {op}, op)
                   && Peeled(p, size, ops, rest + {op});
      SmallerRest(ops, rest, op);
      StuckSurvives(p, size, ops, rest + {op}, some);
      assert !Alone(p, size, j, some, op);
      assert op !in some;
    }
  }

  ghost function Touched(p: Params, size: nat, ops: set<Op>): set<int> {
    set j | 0 <= j < size && !Untouched(p, size, j, ops)
  }

  /** Every peeled key leaves a cell behind that none of the later ones touches. */
  lemma {:induction false} PeelableFits(p: Params, size: nat, ops: set<Op>)
    requires Peelable(p, size, ops)
    ensures |ops| <= |Touched(p, size, ops)|
    decreases |ops|
  {
    hide Touches;
    if ops != {} {
      assert !Stuck(p, size, ops);
      var j, op :| 0 <= j < size && Alone(p, size, j, ops, op);
      var rest := ops - {op};
      PeelableFits(p, size, rest);
      var before, after := Touched(p, size, ops), Touched(p, size, rest);
      assert j in before && j !in after && after <= before;
      Subset(after, before - {j});
    }
  }

  /** Both tests are exact on such keys: a cell is pure iff it holds one key, and empty iff
      it holds none. */
  lemma ExactBothWays(p: Params, size: nat, ops: set<Op>, rest: set<Op>, j: int)
    requires Exact(p, size, ops) && Peeled(p, size, ops, rest) && 0 <= j < size
    ensures Pure(p, SetTotal(p, size, j, rest)) <==> exists op :: Alone(p, size, j, rest, op)
    ensures SetTotal(p, size, j, rest) == ZERO <==> Untouched(p, size, j, rest)
  {
    hide Peeled, Plus, Touches, SetTotal, Check;
    if op :| Alone(p, size, j, rest, op) {
      AloneTotal(p, size, j, rest, op);
    }
    if Untouched(p, size, j, rest) {
      UntouchedTotal(p, size, j, rest);
    }
  }

  // ---- The table ----

  predicate Masked(p: Params, c: Cell) {
    BitAnd(c.keyCheck, p.keycheckMask) == c.keyCheck
  }

  lemma MixedCore(p: Params, c: Cell, op: Op, v: seq<nat>)
    requires Masked(p, c)
    ensures Masked(p, Mixed(p, c, Sign(op.plus), op.key, p.checksum(op.key), v))
    ensures Core(Mixed(p, c, Sign(op.plus), op.key, p.checksum(op.key), v)) == Plus(Core(c), Of(p, op))
  {
    hide AddValue, BitXor, BitAnd;
    MaskXor(c.keyCheck, p.checksum(op.key), p.keycheckMask);
    MaskTwice(BitXor(c.keyCheck, p.checksum(op.key)), p.keycheckMask);
  }

  lemma TouchedNext(p: Params, size: nat, key: nat, j: int, i: nat)
    requires PerHash(p, size) > 0
    ensures TouchedBy(p, size, key, j, i + 1) <==> TouchedBy(p, size, key, j, i) || j == Pos(p, size, i, key)
    ensures !TouchedBy(p, size, key, j, 0)
  {
  }

  lemma TouchedOnce(p: Params, size: nat, key: nat, i: nat)
    requires PerHash(p, size) > 0
    ensures !TouchedBy(p, size, key, Pos(p, size, i, key), i)
  {
    hide Pos;
    forall i': nat | i' < i
      ensures Pos(p, size, i', key) != Pos(p, size, i, key)
    {
      PosDistinct(p, size, i', i, key);
    }
  }

  /** A cell after the first hash functions have been used. */
  ghost function Reached(p: Params, size: nat, j: int, hashes: nat, op: Op, v: seq<nat>, c: Cell): Cell {
    if TouchedBy(p, size, op.key, j, hashes) then Mixed(p, c, Sign(op.plus), op.key, p.checksum(op.key), v) else c
  }

  lemma ReachedCore(p: Params, size: nat, j: int, op: Op, v: seq<nat>, c: Cell)
    requires Masked(p, c)
    ensures var r := Reached(p, size, j, p.nHash, op, v, c);
            Masked(p, r) && Core(r) == Plus(Core(c), Share(p, size, j, op))
    ensures PerHash(p, size) == 0 ==> Reached(p, size, j, p.nHash, op, v, c) == c
  {
    hide Plus, Of, Mixed, Masked, Core;
    MixedCore(p, c, op, v);
    PlusZero(Core(c));
  }

  /** The cell one hash function sends a key to. */
  method CellOf(p: Params, size: nat, i: nat, key: nat) returns (at: nat)
    requires PerHash(p, size) > 0 && i < p.nHash
    ensures at == Pos(p, size, i, key) < size
  {
    PosIs(p, size, i, key);
    PosBound(p, size, i, key);
    var bucketsPerHash := size / p.nHash;
    at := i * bucketsPerHash + p.hash(i, key) % bucketsPerHash;
  }

  ghost predicate UpdatedTo(p: Params, size: nat, j: int, key: nat, plus: bool, c: Cell, c': Cell) {
    if HashesTo(p, size, key, j) then
      && c'.count == c.count + (if plus then 1 else -1)
      && c'.keySum == BitXor(c.keySum, key)
      && c'.keyCheck == BitAnd(BitXor(c.keyCheck, p.checksum(key)), p.keycheckMask)
    else c' == c
  }

  lemma NoCells(p: Params, size: nat, j: int, plus: bool, key: nat, c: Cell)
    ensures PerHash(p, size) == 0 ==> UpdatedTo(p, size, j, key, plus, c, c)
  {
  }

  lemma ReachedLast(p: Params, size: nat, j: int, plus: bool, key: nat, v: seq<nat>, c: Cell)
    ensures UpdatedTo(p, size, j, key, plus, c, Reached(p, size, j, p.nHash, Op(plus, key), v, c))
  {
    hide HashesTo, TouchedBy, AddValue, BitXor, BitAnd;
    TouchesHashed(p, size, key, j);
  }

  // ---- Values ----

  type Octet = x: nat | x < 256

  /** A byte of a value, which goes on with zeros. */
  function ByteAt(v: seq<nat>, b: nat): nat {
    if b < |v| then v[b] else 0
  }

  /** Equal but for zeros at the end. */
  ghost predicate SameBytes(v: seq<nat>, w: seq<nat>) {
    forall b: nat :: ByteAt(v, b) == ByteAt(w, b)
  }

  /** The sums of a cell with a byte of its value in the place of the check ... */
  ghost function Sight(c: Cell, b: nat): Sums {
    Sums(c.count, c.keySum, ByteAt(c.valueSum, b))
  }

  /** ... and the parameters that make this byte of its value the check of every key. */
  ghost function Lens(p: Params, value: nat -> seq<Octet>, b: nat): Params {
    p.(checksum := k => ByteAt(value(k), b), keycheckMask := 255)
  }

  /** The cells add up the values of some keys. */
  ghost predicate CarriesByte(p: Params, cells: seq<Cell>, ops: set<Op>, value: nat -> seq<Octet>, b: nat) {
    forall j :: 0 <= j < |cells| ==> Sight(cells[j], b) == SetTotal(Lens(p, value, b), |cells|, j, ops)
  }

  ghost predicate Carries(p: Params, cells: seq<Cell>, ops: set<Op>, value: nat -> seq<Octet>) {
    && (forall b: nat :: CarriesByte(p, cells, ops, value, b))
    && (forall n: nat :: OneLength(value, n) ==> Filled(p, cells, ops, n))
  }

  ghost predicate OneLength(value: nat -> seq<Octet>, n: nat) {
    forall k: nat :: |value(k)| == n
  }

  /** Where values have one length, the cells that hold any have it too. */
  ghost predicate Filled(p: Params, cells: seq<Cell>, ops: set<Op>, n: nat) {
    forall j :: 0 <= j < |cells| ==>
      |cells[j].valueSum| <= n && (!Untouched(p, |cells|, j, ops) ==> |cells[j].valueSum| == n)
  }

  /** The value of a key but for zeros at the end, and without these if values have one length. */
  ghost predicate Renders(v: seq<nat>, key: nat, value: nat -> seq<Octet>) {
    SameBytes(v, value(key)) && forall n: nat :: OneLength(value, n) ==> |v| == n && v == value(key)
  }

  lemma SameLength(v: seq<nat>, w: seq<nat>)
    requires SameBytes(v, w) && |v| == |w|
    ensures v == w
  {
    forall b | 0 <= b < |v|
      ensures v[b] == w[b]
    {
      assert ByteAt(v, b) == ByteAt(w, b);
    }
  }

  lemma LensTouches(p: Params, value: nat -> seq<Octet>, b: nat, size: nat, key: nat, j: int)
    ensures Touches(Lens(p, value, b), size, key, j) <==> Touches(p, size, key, j)
  {
    var q := Lens(p, value, b);
    assert PerHash(q, size) == PerHash(p, size);
    if PerHash(p, size) > 0 {
      assert forall i: nat :: Pos(q, size, i, key) == Pos(p, size, i, key);
    }
  }

  lemma ByteMask(x: Octet)
    ensures BitAnd(x, 255) == x
  {
    hide BitAnd;
    assert Pow2(8) == 256;
    AndMask(x, 8);
  }

  lemma LensCheck(p: Params, value: nat -> seq<Octet>, b: nat, key: nat)
    ensures Check(Lens(p, value, b), key) == ByteAt(value(key), b)
  {
    hide BitAnd;
    ByteMask(ByteAt(value(key), b));
  }

  lemma AddedByte(sum: seq<nat>, v: seq<nat>, b: nat)
    ensures ByteAt(AddValue(sum, v), b) == BitXor(ByteAt(sum, b), ByteAt(v, b))
  {
    hide BitXor;
    XorZero(ByteAt(sum, b), 0);
  }

  /** Mixing a key in adds its value to the cell, unless it leaves the cell empty and cleared. */
  lemma MixedSight(p: Params, c: Cell, op: Op, v: seq<nat>, value: nat -> seq<Octet>, b: nat)
    requires SameBytes(v, value(op.key))
    ensures var d := Mixed(p, c, Sign(op.plus), op.key, p.checksum(op.key), v);
            Sight(d, b) == if IsEmpty(d) then ZERO else Plus(Sight(c, b), Of(Lens(p, value, b), op))
  {
    hide AddValue, BitXor, BitAnd, Check, Lens;
    AddedByte(c.valueSum, v, b);
    LensCheck(p, value, b, op.key);
  }

  lemma ReachedSight(p: Params, size: nat, j: int, op: Op, v: seq<nat>, c: Cell, value: nat -> seq<Octet>, b: nat)
    requires SameBytes(v, value(op.key))
    ensures var r := Reached(p, size, j, p.nHash, op, v, c);
            Sight(r, b) == if Touches(p, size, op.key, j) && IsEmpty(r) then ZERO
                           else Plus(Sight(c, b), Share(Lens(p, value, b), size, j, op))
  {
    hide Plus, Of, Mixed, IsEmpty, Sight, Lens, SameBytes;
    LensTouches(p, value, b, size, op.key, j);
    MixedSight(p, c, op, v, value, b);
    PlusZero(Sight(c, b));
  }

  /** In a cell that one key is alone in its value can be read off. */
  lemma ValueShown(p: Params, cells: seq<Cell>, i: nat, rest: set<Op>, op: Op, value: nat -> seq<Octet>)
    requires i < |cells| && Alone(p, |cells|, i, rest, op) && Carries(p, cells, rest, value)
    ensures Renders(cells[i].valueSum, op.key, value)
  {
    hide SetTotal, Touches;
    var v := cells[i].valueSum;
    forall b: nat
      ensures ByteAt(v, b) == ByteAt(value(op.key), b)
    {
      assert CarriesByte(p, cells, rest, value, b);
      ByteShown(p, |cells|, i, rest, op, value, b);
    }
    forall n: nat | OneLength(value, n)
      ensures |v| == n && v == value(op.key)
    {
      assert Filled(p, cells, rest, n);
      SameLength(v, value(op.key));
    }
  }

  lemma ByteShown(p: Params, size: nat, i: nat, rest: set<Op>, op: Op, value: nat -> seq<Octet>, b: nat)
    requires Alone(p, size, i, rest, op)
    ensures SetTotal(Lens(p, value, b), size, i, rest).keyCheck == ByteAt(value(op.key), b)
  {
    hide SetTotal, Check, Touches, Lens;
    forall x | x in rest
      ensures Touches(Lens(p, value, b), size, x.key, i) <==> Touches(p, size, x.key, i)
    {
      LensTouches(p, value, b, size, x.key, i);
    }
    AloneTotal(Lens(p, value, b), size, i, rest, op);
    LensCheck(p, value, b, op.key);
  }

  /** In an empty cell of a table on which the tests are exact no value is missing. */
  lemma ClearedRightly(p: Params, cells: seq<Cell>, j: nat, ops: set<Op>, rest: set<Op>, value: nat -> seq<Octet>,
                       b: nat)
    requires j < |cells| && Exact(p, |cells|, ops) && Peeled(p, |cells|, ops, rest) && TableOf(p, cells, rest)
    requires IsEmpty(cells[j])
    ensures SetTotal(Lens(p, value, b), |cells|, j, rest) == ZERO
  {
    ClearedUntouched(p, cells, j, ops, rest);
    hide SetTotal, Touches, Lens, Exact, Peeled;
    forall x | x in rest
      ensures !Touches(Lens(p, value, b), |cells|, x.key, j)
    {
      LensTouches(p, value, b, |cells|, x.key, j);
    }
    UntouchedTotal(Lens(p, value, b), |cells|, j, rest);
  }

  /** Taking out a key takes its value out of the cells. */
  lemma ValueTakenOut(p: Params, cells: seq<Cell>, cells': seq<Cell>, ops: set<Op>, rest: set<Op>, op: Op,
                      v: seq<nat>, value: nat -> seq<Octet>)
    requires Exact(p, |cells|, ops) && Peeled(p, |cells|, ops, rest - {op}) && op in rest && |cells'| == |cells|
    requires TableOf(p, cells', rest - {op}) && Carries(p, cells, rest, value) && Renders(v, op.key, value)
    requires forall j :: 0 <= j < |cells| ==>
      cells'[j] == Reached(p, |cells|, j, p.nHash, Op(!op.plus, op.key), v, cells[j])
    ensures Carries(p, cells', rest - {op}, value)
  {
    hide SetTotal, Share, Plus, Touches, Exact, Peeled, TableOf, SameBytes, Reached, Sight, Lens, IsEmpty;
    forall b: nat
      ensures CarriesByte(p, cells', rest - {op}, value, b)
    {
      assert CarriesByte(p, cells, rest, value, b);
      forall j | 0 <= j < |cells|
        ensures Sight(cells'[j], b) == SetTotal(Lens(p, value, b), |cells|, j, rest - {op})
      {
        ReachedSight(p, |cells|, j, Op(!op.plus, op.key), v, cells[j], value, b);
        TotalTakenOut(Lens(p, value, b), |cells|, j, rest, op);
        if IsEmpty(cells'[j]) {
          ClearedRightly(p, cells', j, ops, rest - {op}, value, b);
        }
      }
    }
    forall n: nat | OneLength(value, n)
      ensures Filled(p, cells', rest - {op}, n)
    {
      assert Filled(p, cells, rest, n);
      forall j | 0 <= j < |cells|
        ensures |cells'[j].valueSum| <= n
        ensures !Untouched(p, |cells|, j, rest - {op}) ==> |cells'[j].valueSum| == n
      {
        ReachedLength(p, |cells|, j, Op(!op.plus, op.key), v, cells[j]);
        if IsEmpty(cells'[j]) {
          ClearedUntouched(p, cells', j, ops, rest - {op});
        }
      }
    }
  }

  /** A key lengthens the values of its cells to its own, unless they are cleared. */
  lemma ReachedLength(p: Params, size: nat, j: int, op: Op, v: seq<nat>, c: Cell)
    ensures var r := Reached(p, size, j, p.nHash, op, v, c);
            if !Touches(p, size, op.key, j) then r == c
            else |r.valueSum| == if IsEmpty(r) then 0 else Max(|c.valueSum|, |v|)
  {
    hide TouchedBy, BitXor, BitAnd;
  }

  lemma ClearedUntouched(p: Params, cells: seq<Cell>, j: nat, ops: set<Op>, rest: set<Op>)
    requires j < |cells| && Exact(p, |cells|, ops) && Peeled(p, |cells|, ops, rest) && TableOf(p, cells, rest)
    requires IsEmpty(cells[j])
    ensures Untouched(p, |cells|, j, rest)
  {
    hide SetTotal, Touches, Exact, Peeled;
    ExactBothWays(p, |cells|, ops, rest, j);
  }

  /** The cells after some steps in order. */
  ghost predicate CarriesSeq(p: Params, cells: seq<Cell>, ops: seq<Op>, value: nat -> seq<Octet>) {
    && (forall b: nat :: SumsByte(p, cells, ops, value, b))
    && (forall n: nat :: OneLength(value, n) ==> Filled(p, cells, (set op | op in ops), n))
  }

  ghost predicate SumsByte(p: Params, cells: seq<Cell>, ops: seq<Op>, value: nat -> seq<Octet>, b: nat) {
    forall j :: 0 <= j < |cells| ==> Sight(cells[j], b) == SeqTotal(Lens(p, value, b), |cells|, j, ops)
  }

  lemma {:induction false} InsertionsCount(p: Params, size: nat, j: int, ops: seq<Op>)
    requires forall i :: 0 <= i < |ops| ==> ops[i].plus
    ensures SeqTotal(p, size, j, ops).count >= 0
    decreases |ops|
  {
    hide Touches, BitXor, Check;
    if ops != [] {
      InsertionsCount(p, size, j, ops[..|ops| - 1]);
    }
  }

  /** A step of inserting into a table of insertions; none clears a cell ... */
  ghost predicate InsertedInto(p: Params, cells: seq<Cell>, cells': seq<Cell>, op: Op, v: seq<nat>) {
    && |cells'| == |cells| && op.plus
    && forall j :: 0 <= j < |cells| ==>
         cells'[j] == Reached(p, |cells|, j, p.nHash, op, v, cells[j]) && cells[j].count >= 0
  }

  lemma ByteInserted(p: Params, cells: seq<Cell>, cells': seq<Cell>, ops: seq<Op>, op: Op, v: seq<nat>,
                     value: nat -> seq<Octet>, b: nat)
    requires InsertedInto(p, cells, cells', op, v) && SameBytes(v, value(op.key)) && SumsByte(p, cells, ops, value, b)
    ensures SumsByte(p, cells', ops + [op], value, b)
  {
    hide SeqTotal, SameBytes, Lens, Touches, Plus, Share, Reached, IsEmpty, Sight;
    forall j | 0 <= j < |cells|
      ensures Sight(cells'[j], b) == SeqTotal(Lens(p, value, b), |cells|, j, ops + [op])
    {
      ReachedSight(p, |cells|, j, op, v, cells[j], value, b);
      SeqTotalNext(Lens(p, value, b), |cells|, j, ops, op);
      if Touches(p, |cells|, op.key, j) {
        InsertedCount(p, |cells|, j, op, v, cells[j]);
      }
    }
  }

  lemma LengthInserted(p: Params, cells: seq<Cell>, cells': seq<Cell>, before: set<Op>, op: Op, v: seq<nat>)
    requires InsertedInto(p, cells, cells', op, v) && Filled(p, cells, before, |v|)
    ensures Filled(p, cells', before + {op}, |v|)
  {
    hide Touches, Reached, IsEmpty;
    forall j | 0 <= j < |cells|
      ensures |cells'[j].valueSum| <= |v|
      ensures !Untouched(p, |cells|, j, before + {op}) ==> |cells'[j].valueSum| == |v|
    {
      ReachedLength(p, |cells|, j, op, v, cells[j]);
      if Touches(p, |cells|, op.key, j) {
        InsertedCount(p, |cells|, j, op, v, cells[j]);
      }
    }
  }

  /** ... so each adds its value. */
  lemma ValueInserted(p: Params, cells: seq<Cell>, cells': seq<Cell>, ops: seq<Op>, op: Op, v: seq<nat>,
                      value: nat -> seq<Octet>)
    requires CarriesSeq(p, cells, ops, value) && |cells'| == |cells| && v == value(op.key)
    requires op.plus && forall i :: 0 <= i < |ops| ==> ops[i].plus
    requires forall j :: 0 <= j < |cells| ==> cells'[j] == Reached(p, |cells|, j, p.nHash, op, v, cells[j])
    ensures CarriesSeq(p, cells', ops + [op], value)
  {
    hide SeqTotal, Lens, Reached, Filled;
    forall j | 0 <= j < |cells|
      ensures cells[j].count >= 0
    {
      InsertionsCount(Lens(p, value, 0), |cells|, j, ops);
      assert SumsByte(p, cells, ops, value, 0);
    }
    hide SumsByte;
    forall b: nat
      ensures SumsByte(p, cells', ops + [op], value, b)
    {
      ByteInserted(p, cells, cells', ops, op, v, value, b);
    }
    forall n: nat | OneLength(value, n)
      ensures Filled(p, cells', (set x | x in ops + [op]), n)
    {
      LengthInserted(p, cells, cells', (set x | x in ops), op, v);
      assert (set x | x in ops + [op]) == (set x | x in ops) + {op};
    }
  }

  /** Only insertions, each with the value of its key. */
  ghost predicate InsertsValues(ops: seq<Op>, values: seq<seq<nat>>, value: nat -> seq<Octet>)
    requires |values| == |ops|
  {
    forall i :: 0 <= i < |ops| ==> ops[i].plus && values[i] == value(ops[i].key)
  }

  lemma NothingCarried(p: Params, cells: seq<Cell>, value: nat -> seq<Octet>)
    requires forall j :: 0 <= j < |cells| ==> cells[j] == EMPTY
    ensures CarriesSeq(p, cells, [], value)
  {
  }

  lemma InsertedCount(p: Params, size: nat, j: int, op: Op, v: seq<nat>, c: Cell)
    requires op.plus && c.count >= 0 && Touches(p, size, op.key, j)
    ensures !IsEmpty(Reached(p, size, j, p.nHash, op, v, c))
  {
    hide TouchedBy, AddValue, BitXor, BitAnd;
  }

  lemma PartedSight(p: Params, c: Cell, d: Cell, b: nat)
    ensures var e := Parted(p, c, d);
            Sight(e, b) == if IsEmpty(e) then ZERO else Minus(Sight(c, b), Sight(d, b))
  {
    hide AddValue, BitXor, BitAnd;
    AddedByte(c.valueSum, d.valueSum, b);
  }

  /** Subtraction leaves the values of the keys on which two sets differ, if those they have
      in common carry the same values. */
  lemma ValuesParted(p: Params, first: seq<Cell>, second: seq<Cell>, cells: seq<Cell>, a: set<nat>, b: set<nat>,
                     value: nat -> seq<Octet>)
    requires |first| == |second| == |cells| && Exact(p, |cells|, Difference(a, b))
    requires Carries(p, first, Inserted(a), value) && Carries(p, second, Inserted(b), value)
    requires TableOf(p, cells, Difference(a, b))
    requires forall j :: 0 <= j < |cells| ==> cells[j] == Parted(p, first[j], second[j])
    ensures Carries(p, cells, Difference(a, b), value)
  {
    hide SetTotal, Minus, Exact, TableOf, Parted, Sight, Lens, IsEmpty, Inserted, Difference;
    forall n: nat
      ensures CarriesByte(p, cells, Difference(a, b), value, n)
    {
      assert CarriesByte(p, first, Inserted(a), value, n) && CarriesByte(p, second, Inserted(b), value, n);
      forall j | 0 <= j < |cells|
        ensures Sight(cells[j], n) == SetTotal(Lens(p, value, n), |cells|, j, Difference(a, b))
      {
        PartedSight(p, first[j], second[j], n);
        DifferenceTotal(Lens(p, value, n), |cells|, j, a, b);
        if IsEmpty(cells[j]) {
          ClearedRightly(p, cells, j, Difference(a, b), Difference(a, b), value, n);
        }
      }
    }
    forall n: nat | OneLength(value, n)
      ensures Filled(p, cells, Difference(a, b), n)
    {
      assert Filled(p, first, Inserted(a), n) && Filled(p, second, Inserted(b), n);
      forall j | 0 <= j < |cells|
        ensures |cells[j].valueSum| <= n
        ensures !Untouched(p, |cells|, j, Difference(a, b)) ==> |cells[j].valueSum| == n
      {
        PartedLength(p, first[j], second[j]);
        if Untouched(p, |cells|, j, Inserted(a)) && Untouched(p, |cells|, j, Inserted(b)) {
          PartedUntouched(p, |cells|, j, a, b);
        }
        if IsEmpty(cells[j]) {
          ClearedUntouched(p, cells, j, Difference(a, b), Difference(a, b));
        }
      }
    }
  }

  lemma PartedLength(p: Params, c: Cell, d: Cell)
    ensures |Parted(p, c, d).valueSum| == if IsEmpty(Parted(p, c, d)) then 0 else Max(|c.valueSum|, |d.valueSum|)
  {
    hide BitXor, BitAnd;
  }

  lemma PartedUntouched(p: Params, size: nat, j: int, a: set<nat>, b: set<nat>)
    requires Untouched(p, size, j, Inserted(a)) && Untouched(p, size, j, Inserted(b))
    ensures Untouched(p, size, j, Difference(a, b))
  {
    hide Touches;
    forall x | x in Difference(a, b)
      ensures !Touches(p, size, x.key, j)
    {
      assert Op(true, x.key) in Inserted(a) || Op(true, x.key) in Inserted(b);
    }
  }

  class Table {
    const p: Params
    const hashTable: array<Cell>
    var isModified: bool

    ghost predicate Valid()
      reads hashTable
    {
      forall j :: 0 <= j < hashTable.Length ==> Masked(p, hashTable[j])
    }

    ghost predicate Holds(ops: set<Op>)
      reads hashTable
    {
      TableOf(p, hashTable[..], ops)
    }

    constructor (p: Params, size: nat)
      ensures this.p == p && fresh(hashTable) && hashTable.Length == size && !isModified
      ensures Valid() && forall j :: 0 <= j < size ==> hashTable[j] == EMPTY
    {
      this.p := p;
      hashTable := new Cell[size](_ => EMPTY);
      isModified := false;
    }

    /** Adds or takes away one key in every cell it belongs to. */
    method Update(plusOrMinus: bool, key: nat, v: seq<nat>)
      requires Valid()
      modifies this, hashTable
      ensures Valid()
      ensures forall j :: 0 <= j < hashTable.Length ==>
        Core(hashTable[j]) == Plus(Core(old(hashTable[j])), Share(p, hashTable.Length, j, Op(plusOrMinus, key)))
      ensures isModified == (old(isModified) || PerHash(p, hashTable.Length) > 0)
      ensures forall j :: 0 <= j < hashTable.Length ==>
        UpdatedTo(p, hashTable.Length, j, key, plusOrMinus, old(hashTable[j]), hashTable[j])
      ensures forall j :: 0 <= j < hashTable.Length ==>
        hashTable[j] == Reached(p, hashTable.Length, j, p.nHash, Op(plusOrMinus, key), v, old(hashTable[j]))
    {
      hide Plus, Of, Mixed, AddValue, TouchedBy, Pos, Masked, Core, UpdatedTo, BitXor, BitAnd;
      var size := hashTable.Length;
      if p.nHash != 0 && size / p.nHash != 0 {
        var kchk := p.checksum(key);
        forall j | 0 <= j < size
          ensures !TouchedBy(p, size, key, j, 0)
        {
          TouchedNext(p, size, key, j, 0);
        }
        for i := 0 to p.nHash
          invariant forall j :: 0 <= j < size ==>
            hashTable[j] == Reached(p, size, j, i, Op(plusOrMinus, key), v, old(hashTable[j]))
        {
          var at := CellOf(p, size, i, key);
          TouchedOnce(p, size, key, i);
          forall j | 0 <= j < size
            ensures TouchedBy(p, size, key, j, i + 1) <==> TouchedBy(p, size, key, j, i) || j == at
          {
            TouchedNext(p, size, key, j, i);
          }
          hashTable[at] := Mixed(p, hashTable[at], Sign(plusOrMinus), key, kchk, v);
        }
        isModified := true;
      }
      forall j | 0 <= j < size
        ensures Masked(p, hashTable[j])
        ensures Core(hashTable[j]) == Plus(Core(old(hashTable[j])), Share(p, size, j, Op(plusOrMinus, key)))
        ensures hashTable[j] == Reached(p, size, j, p.nHash, Op(plusOrMinus, key), v, old(hashTable[j]))
      {
        ReachedCore(p, size, j, Op(plusOrMinus, key), v, old(hashTable[j]));
      }
      forall j | 0 <= j < size
        ensures UpdatedTo(p, size, j, key, plusOrMinus, old(hashTable[j]), hashTable[j])
      {
        ReachedLast(p, size, j, plusOrMinus, key, v, old(hashTable[j]));
        NoCells(p, size, j, plusOrMinus, key, old(hashTable[j]));
      }
    }

    /** A table built by a sequence of insertions and erasures. */
    constructor Build(p: Params, size: nat, ops: seq<Op>, values: seq<seq<nat>>, ghost value: nat -> seq<Octet>)
      requires |values| == |ops|
      ensures this.p == p && fresh(hashTable) && hashTable.Length == size && Valid()
      ensures forall j :: 0 <= j < size ==> Core(hashTable[j]) == SeqTotal(p, size, j, ops)
      ensures InsertsValues(ops, values, value) ==> CarriesSeq(p, hashTable[..], ops, value)
    {
      this.p := p;
      hashTable := new Cell[size](_ => EMPTY);
      isModified := false;
      new;
      ghost var valued := InsertsValues(ops, values, value);
      NothingCarried(p, hashTable[..], value);
      hide SeqTotal, Plus, Share, Masked, CarriesSeq, Reached, UpdatedTo;
      EmptyMasked(p);
      forall j | 0 <= j < size
        ensures Core(hashTable[j]) == SeqTotal(p, size, j, ops[..0])
      {
        SeqTotalNext(p, size, j, [], Op(true, 0));
      }
      for i := 0 to |ops|
        invariant Valid() && forall j :: 0 <= j < size ==> Core(hashTable[j]) == SeqTotal(p, size, j, ops[..i])
        invariant valued ==> CarriesSeq(p, hashTable[..], ops[..i], value)
      {
        assert ops[..i + 1] == ops[..i] + [ops[i]];
        forall j | 0 <= j < size
          ensures SeqTotal(p, size, j, ops[..i + 1]) == Plus(SeqTotal(p, size, j, ops[..i]), Share(p, size, j, ops[i]))
        {
          SeqTotalNext(p, size, j, ops[..i], ops[i]);
        }
        ghost var cells := hashTable[..];
        Update(ops[i].plus, ops[i].key, values[i]);
        if valued {
          ValueInserted(p, cells, hashTable[..], ops[..i], ops[i], values[i], value);
        }
      }
      assert ops[..|ops|] == ops;
    }

    constructor Copy(other: Table)
      requires other.Valid()
      ensures p == other.p && fresh(hashTable) && hashTable[..] == other.hashTable[..] && Valid()
    {
      p := other.p;
      var cells := other.hashTable;
      hashTable := new Cell[cells.Length](i requires 0 <= i < cells.Length reads cells => cells[i]);
      isModified := false;
    }

    /** The table of the difference; tables of unequal size are refused. */
    method Subtract(other: Table) returns (ok: bool, result: Table)
      requires Valid() && other.Valid() && other.p == p
      ensures ok <==> hashTable.Length == other.hashTable.Length
      ensures ok ==> && fresh(result) && fresh(result.hashTable) && result.Valid() && result.p == p
                     && result.hashTable.Length == hashTable.Length
                     && forall j :: 0 <= j < hashTable.Length ==>
                          && Core(result.hashTable[j]) == Minus(Core(hashTable[j]), Core(other.hashTable[j]))
                          && result.hashTable[j] == Parted(p, hashTable[j], other.hashTable[j])
    {
      ok := hashTable.Length == other.hashTable.Length;
      result := new Table.Copy(this);
      if ok {
        var n := hashTable.Length;
        hide Minus, Core, Masked, Parted;
        for i := 0 to n
          invariant forall j :: i <= j < n ==> result.hashTable[j] == hashTable[j]
          invariant forall j :: 0 <= j < i ==> Masked(p, result.hashTable[j])
          invariant forall j :: 0 <= j < i ==>
            && Core(result.hashTable[j]) == Minus(Core(hashTable[j]), Core(other.hashTable[j]))
            && result.hashTable[j] == Parted(p, hashTable[j], other.hashTable[j])
        {
          PartedCore(p, hashTable[i], other.hashTable[i]);
          result.hashTable[i] := Parted(p, result.hashTable[i], other.hashTable[i]);
        }
      }
    }

    /** One pass over the cells that takes out every key a pure cell shows. If it takes out
        none, no key that is left is alone in a cell. */
    method Peel(positive: Found, negative: Found, ghost ops: set<Op>, ghost rest: set<Op>,
                ghost value: nat -> seq<Octet>)
      returns (positive': Found, negative': Found, nErased: nat, ghost rest': set<Op>)
      requires Valid()
      modifies this, hashTable
      ensures Valid()
      ensures Exact(p, hashTable.Length, ops) && old(Holds(rest))
              && Peeling(p, hashTable.Length, ops, rest, positive, negative) ==>
        && Holds(rest') && Peeling(p, hashTable.Length, ops, rest', positive', negative')
        && rest' <= rest && nErased == |rest| - |rest'|
        && (nErased == 0 ==> Stuck(p, hashTable.Length, rest'))
        && (old(Carries(p, hashTable[..], rest, value)) && Rendered(positive + negative, value) ==>
              Carries(p, hashTable[..], rest', value) && Rendered(positive' + negative', value))
    {
      hide Exact, TableOf, Peeling, IsPure, Share, Core, Masked, Plus, Stuck, Carries, Rendered, Reached, Renders;
      positive', negative', nErased, rest' := positive, negative, 0, rest;
      ghost var exact := Exact(p, hashTable.Length, ops) && Holds(rest)
                         && Peeling(p, hashTable.Length, ops, rest, positive, negative);
      ghost var valued := exact && Carries(p, hashTable[..], rest, value) && Rendered(positive + negative, value);
      for i := 0 to hashTable.Length
        invariant Valid()
        invariant exact ==> Holds(rest') && Peeling(p, hashTable.Length, ops, rest', positive', negative')
        invariant exact ==> rest' <= rest && nErased == |rest| - |rest'|
        invariant valued ==> Carries(p, hashTable[..], rest', value) && Rendered(positive' + negative', value)
        invariant nErased == 0 ==> forall k :: 0 <= k < i ==> !IsPure(p, hashTable[k])
      {
        var entry := hashTable[i];
        if IsPure(p, entry) {
          ghost var cells := hashTable[..];
          ghost var op := Op(entry.count == 1, entry.keySum);
          if exact {
            PureShows(p, cells, i, ops, rest', positive', negative');
            PeelingNext(p, hashTable.Length, i, ops, rest', positive', negative', op, entry.valueSum);
          }
          ghost var found := positive' + negative';
          if entry.count == 1 {
            positive' := positive' + {(entry.keySum, entry.valueSum)};
          } else {
            negative' := negative' + {(entry.keySum, entry.valueSum)};
          }
          Update(entry.count != 1, entry.keySum, entry.valueSum);
          if exact {
            TakenOut(p, cells, hashTable[..], rest', op);
            PeelingRest(p, |cells|, ops, rest' - {op}, positive', negative');
          }
          if valued {
            ValueShown(p, cells, i, rest', op, value);
            ValueTakenOut(p, cells, hashTable[..], ops, rest', op, entry.valueSum, value);
            OneMoreRendered(found, positive' + negative', (entry.keySum, entry.valueSum), value);
          }
          rest' := rest' - {op};
          nErased := nErased + 1;
        }
      }
      if exact && nErased == 0 {
        NonePure(p, hashTable[..], rest');
      }
    }

    /** Lists the keys a table holds by peeling a copy of it until no cell is pure. Always
        terminates. On a table of keys on which the cell tests are exact, success lists
        exactly the inserted and exactly the erased keys, and it succeeds if and only if
        every hash has cells and peeling cannot get stuck. */
    method ListEntries(ghost ops: set<Op>, ghost value: nat -> seq<Octet>)
      returns (ok: bool, positive: Found, negative: Found)
      requires Valid()
      ensures ok && Exact(p, hashTable.Length, ops) && Holds(ops) ==>
        KeysOf(positive) == Listed(ops, true) && KeysOf(negative) == Listed(ops, false)
      ensures Exact(p, hashTable.Length, ops) && Holds(ops) ==>
        (ok <==> PerHash(p, hashTable.Length) > 0 && Peelable(p, hashTable.Length, ops))
      ensures Exact(p, hashTable.Length, ops) && Holds(ops) && Carries(p, hashTable[..], ops, value) ==>
        forall x :: x in positive || x in negative ==> Renders(x.1, x.0, value)
    {
      hide Exact, TableOf, Peeling, IsEmpty, Core, Masked, Stuck, Peelable, Carries, Renders;
      positive, negative := {}, {};
      ghost var size := hashTable.Length;
      ghost var exact := Exact(p, size, ops) && Holds(ops);
      var peeled := new Table.Copy(this);
      ghost var rest := ops;
      NothingPeeled(p, size, ops);
      ghost var valued := exact && Carries(p, hashTable[..], ops, value);
      var nTotalErased, more := 0, true;
      while more
        invariant peeled.Valid() && peeled.p == p && peeled.hashTable.Length == hashTable.Length
        invariant fresh(peeled) && fresh(peeled.hashTable)
        invariant exact ==> peeled.Holds(rest) && Peeling(p, size, ops, rest, positive, negative)
        invariant exact ==> nTotalErased == |ops| - |rest|
        invariant valued ==> Carries(p, peeled.hashTable[..], rest, value) && Rendered(positive + negative, value)
        invariant exact && !more ==> Stuck(p, size, rest) || nTotalErased >= 10 * size
        decreases more, 10 * hashTable.Length - nTotalErased
      {
        var nErased;
        positive, negative, nErased, rest := peeled.Peel(positive, negative, ops, rest, value);
        nTotalErased := nTotalErased + nErased;
        more := nErased > 0 && nTotalErased as real < hashTable.Length as real / 0.1;
      }
      if p.nHash == 0 || hashTable.Length / p.nHash == 0 {
        return false, positive, negative;
      }
      var bucketsPerHash := hashTable.Length / p.nHash;
      PerHashFits(p, hashTable.Length);
      ghost var cells := peeled.hashTable[..];
      if exact {
        PeelingEnds(p, size, ops, rest, positive, negative);
      }
      for i := 0 to bucketsPerHash
        invariant forall j :: 0 <= j < i ==> IsEmpty(cells[j])
      {
        if !IsEmpty(peeled.hashTable[i]) {
          if exact {
            SomeLeft(p, cells, rest, i);
          }
          return false, positive, negative;
        }
      }
      ok := true;
      if exact {
        AllPeeled(p, cells, ops, rest, positive, negative);
      }
    }
  }

  /** Set reconciliation: from the tables of two sets, the keys on which they differ. */
  method Reconcile(a: Table, b: Table, ghost keysA: set<nat>, ghost keysB: set<nat>, ghost value: nat -> seq<Octet>)
    returns (ok: bool, onlyA: Found, onlyB: Found)
    requires a.Valid() && b.Valid() && a.p == b.p && a.hashTable.Length == b.hashTable.Length
    requires a.Holds(Inserted(keysA)) && b.Holds(Inserted(keysB))
    ensures ok && Exact(a.p, a.hashTable.Length, Difference(keysA, keysB)) ==>
      KeysOf(onlyA) == keysA - keysB && KeysOf(onlyB) == keysB - keysA
    ensures Exact(a.p, a.hashTable.Length, Difference(keysA, keysB)) ==>
      (ok <==> PerHash(a.p, a.hashTable.Length) > 0 && Peelable(a.p, a.hashTable.Length, Difference(keysA, keysB)))
    ensures Exact(a.p, a.hashTable.Length, Difference(keysA, keysB))
            && Carries(a.p, a.hashTable[..], Inserted(keysA), value)
            && Carries(b.p, b.hashTable[..], Inserted(keysB), value) ==>
      forall x :: x in onlyA || x in onlyB ==> Renders(x.1, x.0, value)
  {
    hide Exact, Minus, Core, SetTotal, Difference, Peelable, Carries, Renders, Parted, Inserted;
    var same, diff := a.Subtract(b);
    forall j | 0 <= j < diff.hashTable.Length
      ensures Core(diff.hashTable[j]) == SetTotal(a.p, a.hashTable.Length, j, Difference(keysA, keysB))
    {
      DifferenceTotal(a.p, a.hashTable.Length, j, keysA, keysB);
    }
    if Exact(a.p, a.hashTable.Length, Difference(keysA, keysB))
       && Carries(a.p, a.hashTable[..], Inserted(keysA), value)
       && Carries(b.p, b.hashTable[..], Inserted(keysB), value) {
      ValuesParted(a.p, a.hashTable[..], b.hashTable[..], diff.hashTable[..], keysA, keysB, value);
    }
    ok, onlyA, onlyB := diff.ListEntries(Difference(keysA, keysB), value);
    ListedDifference(keysA, keysB);
  }

  /** The steps that insert some keys, in order. */
  function Insertions(keys: seq<nat>): seq<Op> {
    seq(|keys|, i requires 0 <= i < |keys| => Op(true, keys[i]))
  }

  lemma InsertionsSet(keys: seq<nat>)
    ensures (set op | op in Insertions(keys)) == Inserted(set k | k in keys)
  {
    var ops := Insertions(keys);
    forall k | k in keys
      ensures Op(true, k) in ops
    {
      var i :| 0 <= i < |keys| && keys[i] == k;
      assert ops[i] == Op(true, k);
    }
  }

  /** Inserting distinct keys builds the table of their set. */
  lemma InsertionsHold(p: Params, size: nat, j: int, keys: seq<nat>)
    requires Distinct(keys)
    ensures SeqTotal(p, size, j, Insertions(keys)) == SetTotal(p, size, j, Inserted(set k | k in keys))
  {
    hide SeqTotal, SetTotal;
    DistinctTotal(p, size, j, Insertions(keys));
    InsertionsSet(keys);
  }

  lemma InsertionsCarry(p: Params, cells: seq<Cell>, keys: seq<nat>, value: nat -> seq<Octet>)
    requires Distinct(keys) && CarriesSeq(p, cells, Insertions(keys), value)
    ensures Carries(p, cells, Inserted(set k | k in keys), value)
  {
    InsertionsSet(keys);
    hide SeqTotal, SetTotal, Lens, Insertions, Inserted, Filled, Sight, Distinct;
    var ops := Inserted(set k | k in keys);
    forall b: nat
      ensures CarriesByte(p, cells, ops, value, b)
    {
      assert SumsByte(p, cells, Insertions(keys), value, b);
      forall j | 0 <= j < |cells|
        ensures Sight(cells[j], b) == SetTotal(Lens(p, value, b), |cells|, j, ops)
      {
        InsertionsHold(Lens(p, value, b), |cells|, j, keys);
      }
    }
  }

  /** One hash function tells all of some keys apart. */
  ghost predicate ToldApart(p: Params, size: nat, keys: set<nat>) {
    p.nHash > 0 && size / p.nHash > 0
    && exists i: nat :: i < p.nHash && SpreadBy(p, size, keys, i)
  }

  ghost predicate SpreadBy(p: Params, size: nat, keys: set<nat>, i: nat)
    requires p.nHash > 0 && size / p.nHash > 0
  {
    forall k, k' :: k in keys && k' in keys && k != k' ==>
      p.hash(i, k) % (size / p.nHash) != p.hash(i, k') % (size / p.nHash)
  }

  /** Keys that one hash function tells apart can be peeled: each is alone in its cell of that
      function's part of the table. */
  lemma SpreadPeels(p: Params, size: nat, a: set<nat>, b: set<nat>)
    requires ToldApart(p, size, (a - b) + (b - a))
    ensures PerHash(p, size) > 0 && Peelable(p, size, Difference(a, b))
  {
    var keys, ops := (a - b) + (b - a), Difference(a, b);
    var i: nat :| i < p.nHash && SpreadBy(p, size, keys, i);
    forall some | some <= ops && some != {}
      ensures !Stuck(p, size, some)
    {
      var op := PickOne(some);
      var j := Pos(p, size, i, op.key);
      PosBound(p, size, i, op.key);
      assert TouchedBy(p, size, op.key, j, p.nHash);
      forall x | x in some && Touches(p, size, x.key, j)
        ensures x == op
      {
        SameStretch(p, size, keys, i, x.key, op.key);
      }
      assert Alone(p, size, j, some, op);
    }
  }

  lemma SameStretch(p: Params, size: nat, keys: set<nat>, i: nat, x: nat, key: nat)
    requires PerHash(p, size) > 0 && i < p.nHash && SpreadBy(p, size, keys, i) && x in keys && key in keys
    requires Touches(p, size, x, Pos(p, size, i, key))
    ensures x == key
  {
    var i': nat :| i' < p.nHash && Pos(p, size, i', x) == Pos(p, size, i, key);
    var w := PerHash(p, size);
    if i' < i {
      StretchBound(i', i, w, p.hash(i', x) % w);
    } else if i < i' {
      StretchBound(i, i', w, p.hash(i, key) % w);
    }
  }

  /** Reconciliation from end to end: two tables built from distinct keys, subtracted and
      listed, give the keys only the first and only the second has, and do so if and only if
      peeling cannot get stuck. */
  method ReconcileKeys(p: Params, size: nat, keysA: seq<nat>, valuesA: seq<seq<nat>>,
                       keysB: seq<nat>, valuesB: seq<seq<nat>>, ghost value: nat -> seq<Octet>)
    returns (ok: bool, onlyA: Found, onlyB: Found)
    requires Distinct(keysA) && |valuesA| == |keysA| && Distinct(keysB) && |valuesB| == |keysB|
    ensures var a, b := set k | k in keysA, set k | k in keysB;
            ok && Exact(p, size, Difference(a, b)) ==> KeysOf(onlyA) == a - b && KeysOf(onlyB) == b - a
    ensures var ops := Difference(set k | k in keysA, set k | k in keysB);
            Exact(p, size, ops) ==> (ok <==> PerHash(p, size) > 0 && Peelable(p, size, ops))
    ensures var a, b := set k | k in keysA, set k | k in keysB;
            Exact(p, size, Difference(a, b)) && ToldApart(p, size, (a - b) + (b - a)) ==>
              ok && KeysOf(onlyA) == a - b && KeysOf(onlyB) == b - a
    ensures var ops := Difference(set k | k in keysA, set k | k in keysB);
            && Exact(p, size, ops)
            && (forall i :: 0 <= i < |keysA| ==> valuesA[i] == value(keysA[i]))
            && (forall i :: 0 <= i < |keysB| ==> valuesB[i] == value(keysB[i])) ==>
              forall x :: x in onlyA || x in onlyB ==> Renders(x.1, x.0, value)
  {
    ghost var valuedA := InsertsValues(Insertions(keysA), valuesA, value);
    ghost var valuedB := InsertsValues(Insertions(keysB), valuesB, value);
    assert (forall i :: 0 <= i < |keysA| ==> valuesA[i] == value(keysA[i])) ==> valuedA;
    assert (forall i :: 0 <= i < |keysB| ==> valuesB[i] == value(keysB[i])) ==> valuedB;
    hide Exact, Core, SeqTotal, SetTotal, Inserted, Insertions, Difference, Distinct, Peelable, KeysOf, ToldApart;
    hide CarriesSeq, Carries, Renders, InsertsValues;
    ghost var inA, inB := set k | k in keysA, set k | k in keysB;
    if ToldApart(p, size, (inA - inB) + (inB - inA)) {
      SpreadPeels(p, size, inA, inB);
    }
    var opsA, opsB := Insertions(keysA), Insertions(keysB);
    InsertionsLength(keysA);
    InsertionsLength(keysB);
    var a := new Table.Build(p, size, opsA, valuesA, value);
    var b := new Table.Build(p, size, opsB, valuesB, value);
    forall j | 0 <= j < size
      ensures SeqTotal(p, size, j, opsA) == SetTotal(p, size, j, Inserted(set k | k in keysA))
      ensures SeqTotal(p, size, j, opsB) == SetTotal(p, size, j, Inserted(set k | k in keysB))
    {
      InsertionsHold(p, size, j, keysA);
      InsertionsHold(p, size, j, keysB);
    }
    if valuedA {
      InsertionsCarry(p, a.hashTable[..], keysA, value);
    }
    if valuedB {
      InsertionsCarry(p, b.hashTable[..], keysB, value);
    }
    ok, onlyA, onlyB := Reconcile(a, b, inA, inB, value);
  }

  lemma InsertionsLength(keys: seq<nat>)
    ensures |Insertions(keys)| == |keys|
  {
  }

  type Found = set<(nat, seq<nat>)>

  /** Every key found comes with its value. */
  ghost predicate Rendered(found: Found, value: nat -> seq<Octet>) {
    forall x :: x in found ==> Renders(x.1, x.0, value)
  }

  lemma OneMoreRendered(found: Found, found': Found, x: (nat, seq<nat>), value: nat -> seq<Octet>)
    requires Rendered(found, value) && Renders(x.1, x.0, value) && found' == found + {x}
    ensures Rendered(found', value)
  {
  }

  ghost function KeysOf(found: Found): set<nat> {
    set x | x in found :: x.0
  }

  ghost function Listed(ops: set<Op>, plus: bool): set<nat> {
    set op | op in ops && op.plus == plus :: op.key
  }

  lemma ListedDifference(a: set<nat>, b: set<nat>)
    ensures Listed(Difference(a, b), true) == a - b && Listed(Difference(a, b), false) == b - a
  {
    forall k | k in a - b
      ensures k in Listed(Difference(a, b), true)
    {
      assert Op(true, k) in Difference(a, b);
    }
    forall k | k in b - a
      ensures k in Listed(Difference(a, b), false)
    {
      assert Op(false, k) in Difference(a, b);
    }
  }

  /** The table of a set of insertions and erasures. */
  ghost predicate TableOf(p: Params, cells: seq<Cell>, ops: set<Op>) {
    forall j :: 0 <= j < |cells| ==> Core(cells[j]) == SetTotal(p, |cells|, j, ops)
  }

  /** What has been listed is what peeling has taken out of the table. */
  ghost predicate Peeling(p: Params, size: nat, ops: set<Op>, rest: set<Op>, positive: Found, negative: Found) {
    && rest <= ops && Peeled(p, size, ops, rest)
    && KeysOf(positive) == Listed(ops - rest, true)
    && KeysOf(negative) == Listed(ops - rest, false)
  }

  lemma NothingPeeled(p: Params, size: nat, ops: set<Op>)
    ensures Peeling(p, size, ops, ops, {}, {})
  {
  }

  /** A cell that one key is alone in shows that key. */
  lemma OnlyKey(p: Params, size: nat, j: int, rest: set<Op>, c: Cell)
    requires Core(c) == SetTotal(p, size, j, rest) && exists op :: Alone(p, size, j, rest, op)
    ensures Alone(p, size, j, rest, Op(c.count == 1, c.keySum))
  {
    hide SetTotal, Check;
    var op :| Alone(p, size, j, rest, op);
    AloneTotal(p, size, j, rest, op);
  }

  /** A pure cell of a table on which the tests are exact shows a key that is still there. */
  lemma PureShows(p: Params, cells: seq<Cell>, i: nat, ops: set<Op>, rest: set<Op>, positive: Found, negative: Found)
    requires i < |cells| && Exact(p, |cells|, ops) && TableOf(p, cells, rest)
    requires Peeling(p, |cells|, ops, rest, positive, negative) && IsPure(p, cells[i])
    ensures Alone(p, |cells|, i, rest, Op(cells[i].count == 1, cells[i].keySum))
  {
    hide SetTotal, Check, Exact, Alone, Peeling;
    PeelingRest(p, |cells|, ops, rest, positive, negative);
    ExactBothWays(p, |cells|, ops, rest, i);
    OnlyKey(p, |cells|, i, rest, cells[i]);
  }

  lemma PeelingNext(p: Params, size: nat, j: nat, ops: set<Op>, rest: set<Op>, positive: Found, negative: Found,
                    op: Op, v: seq<nat>)
    requires Peeling(p, size, ops, rest, positive, negative) && j < size && Alone(p, size, j, rest, op)
    ensures if op.plus then Peeling(p, size, ops, rest - {op}, positive + {(op.key, v)}, negative)
            else Peeling(p, size, ops, rest - {op}, positive, negative + {(op.key, v)})
  {
    hide Peeled;
    PeeledNext(p, size, ops, rest, op, j);
    var found := if op.plus then positive else negative;
    assert ops - (rest - {op}) == (ops - rest) + {op};
    assert Listed((ops - rest) + {op}, op.plus) == Listed(ops - rest, op.plus) + {op.key};
    assert Listed((ops - rest) + {op}, !op.plus) == Listed(ops - rest, !op.plus);
    assert KeysOf(found + {(op.key, v)}) == KeysOf(found) + {op.key};
  }

  /** Where no cell is pure no key is alone. */
  lemma NonePure(p: Params, cells: seq<Cell>, rest: set<Op>)
    requires TableOf(p, cells, rest) && forall j :: 0 <= j < |cells| ==> !IsPure(p, cells[j])
    ensures Stuck(p, |cells|, rest)
  {
    hide SetTotal, Check, Touches;
    forall j, op | 0 <= j < |cells|
      ensures !Alone(p, |cells|, j, rest, op)
    {
      if Alone(p, |cells|, j, rest, op) {
        AloneTotal(p, |cells|, j, rest, op);
      }
    }
  }

  /** A cell that is not empty means that some key is left. */
  lemma SomeLeft(p: Params, cells: seq<Cell>, rest: set<Op>, i: nat)
    requires i < |cells| && TableOf(p, cells, rest) && !IsEmpty(cells[i])
    ensures rest != {}
  {
    EmptyTotal(p, |cells|, i);
  }

  /** Peeling ends with nothing left if and only if it cannot get stuck. */
  lemma PeelingEnds(p: Params, size: nat, ops: set<Op>, rest: set<Op>, positive: Found, negative: Found)
    requires Peeling(p, size, ops, rest, positive, negative)
    ensures rest == {} ==> Peelable(p, size, ops)
    ensures (Stuck(p, size, rest) || |ops| - |rest| >= 10 * size > 0) && Peelable(p, size, ops) ==> rest == {}
  {
    hide Stuck, Peeled;
    if Peelable(p, size, ops) {
      PeelableFits(p, size, ops);
      AtMost(Touched(p, size, ops), size);
    }
    forall some | some <= ops && Stuck(p, size, some)
      ensures some <= rest
    {
      StuckSurvives(p, size, ops, rest, some);
    }
  }

  lemma TakenOut(p: Params, cells: seq<Cell>, cells': seq<Cell>, rest: set<Op>, op: Op)
    requires TableOf(p, cells, rest) && op in rest && |cells'| == |cells|
    requires forall j :: 0 <= j < |cells| ==>
      Core(cells'[j]) == Plus(Core(cells[j]), Share(p, |cells|, j, Op(!op.plus, op.key)))
    ensures TableOf(p, cells', rest - {op})
  {
    hide SetTotal, Plus, Share, Core;
    forall j | 0 <= j < |cells|
      ensures Core(cells'[j]) == SetTotal(p, |cells|, j, rest - {op})
    {
      TotalTakenOut(p, |cells|, j, rest, op);
    }
  }

  lemma TotalTakenOut(p: Params, size: nat, j: int, rest: set<Op>, op: Op)
    requires op in rest
    ensures Plus(SetTotal(p, size, j, rest), Share(p, size, j, Op(!op.plus, op.key)))
         == SetTotal(p, size, j, rest - {op})
  {
    hide SetTotal, Plus, Share;
    var r, x, y := SetTotal(p, size, j, rest - {op}), Share(p, size, j, op), Share(p, size, j, Op(!op.plus, op.key));
    SetTotalWithout(p, size, j, rest, op);
    PlusAssociates(r, x, y);
    ShareUndone(p, size, j, op);
    PlusZero(r);
  }

  lemma PerHashFits(p: Params, size: nat)
    requires p.nHash > 0
    ensures size / p.nHash <= size
  {
    QuotientAtMost(size, p.nHash);
  }

  /** Empty cells for the first hash function mean that no key is left. */
  lemma AllPeeled(p: Params, cells: seq<Cell>, ops: set<Op>, rest: set<Op>, positive: Found, negative: Found)
    requires PerHash(p, |cells|) > 0 && PerHash(p, |cells|) <= |cells|
    requires Exact(p, |cells|, ops) && TableOf(p, cells, rest) && Peeling(p, |cells|, ops, rest, positive, negative)
    requires forall j :: 0 <= j < PerHash(p, |cells|) ==> IsEmpty(cells[j])
    ensures rest == {} && KeysOf(positive) == Listed(ops, true) && KeysOf(negative) == Listed(ops, false)
  {
    hide SetTotal, Peeling, KeysOf, Listed, Peeled;
    PeelingRest(p, |cells|, ops, rest, positive, negative);
    forall op: Op
      ensures op !in rest
    {
      var j := Pos(p, |cells|, 0, op.key);
      assert Touches(p, |cells|, op.key, j);
      assert Core(cells[j]) == SetTotal(p, |cells|, j, rest);
      assert Untouched(p, |cells|, j, rest);
    }
    assert rest == {};
    PeeledAll(p, |cells|, ops, positive, negative);
  }

  lemma PeelingRest(p: Params, size: nat, ops: set<Op>, rest: set<Op>, positive: Found, negative: Found)
    requires Peeling(p, size, ops, rest, positive, negative)
    ensures rest <= ops && Peeled(p, size, ops, rest)
  {
  }

  lemma PeeledAll(p: Params, size: nat, ops: set<Op>, positive: Found, negative: Found)
    requires Peeling(p, size, ops, {}, positive, negative)
    ensures KeysOf(positive) == Listed(ops, true) && KeysOf(negative) == Listed(ops, false)
  {
    assert ops - {} == ops;
  }

  /** A cell of a table minus the same cell of another. */
  function Parted(p: Params, c: Cell, d: Cell): Cell {
    var check := BitAnd(BitXor(c.keyCheck, d.keyCheck), p.keycheckMask);
    var e := Cell(c.count - d.count, BitXor(c.keySum, d.keySum), check, c.valueSum);
    e.(valueSum := if IsEmpty(e) then [] else AddValue(e.valueSum, d.valueSum))
  }

  lemma PartedCore(p: Params, c: Cell, d: Cell)
    requires Masked(p, c) && Masked(p, d)
    ensures Masked(p, Parted(p, c, d)) && Core(Parted(p, c, d)) == Minus(Core(c), Core(d))
  {
    hide AddValue, BitXor, BitAnd;
    MaskXor(c.keyCheck, d.keyCheck, p.keycheckMask);
    MaskTwice(BitXor(c.keyCheck, d.keyCheck), p.keycheckMask);
  }

  lemma EmptyMasked(p: Params)
    ensures Masked(p, EMPTY)
  {
  }

  lemma SeqTotalNext(p: Params, size: nat, j: int, ops: seq<Op>, op: Op)
    ensures SeqTotal(p, size, j, []) == ZERO
    ensures SeqTotal(p, size, j, ops + [op]) == Plus(SeqTotal(p, size, j, ops), Share(p, size, j, op))
  {
    assert (ops + [op])[..|ops|] == ops;
  }
}
