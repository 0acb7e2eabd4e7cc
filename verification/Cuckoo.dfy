/** The cuckoo cache: a fixed table with eight places per element, per-slot flags for
    entries that may be dropped, and two epochs of entries. */
module Cuckoo {
  import opened Finite
  import opened Powers

  // ---- Packed flags ----

  function Mask(k: nat): bv8
    requires k < 8
  {
    1 << k
  }

  predicate Hits(m: bv8, b: bv8) {
    m & b != 0
  }

  function WithBit(b: bv8, m: bv8): bv8 {
    b | m
  }

  function WithoutBit(b: bv8, m: bv8): bv8 {
    b & !m
  }

  predicate BitOf(b: bv8, k: nat)
    requires k < 8
  {
    Hits(Mask(k), b)
  }

  lemma MaskCases(k: nat)
    requires k < 8
    ensures Mask(k) == [1 as bv8, 2, 4, 8, 16, 32, 64, 128][k]
  {
    if k < 4 {
      assert Mask(0) == 1 && Mask(1) == 2 && Mask(2) == 4 && Mask(3) == 8;
    } else {
      assert Mask(4) == 16 && Mask(5) == 32 && Mask(6) == 64 && Mask(7) == 128;
    }
  }

  /** Two masks are the same or have no bit in common. */
  predicate Apart(m: bv8, n: bv8) {
    m != 0 && (m == n || m & n == 0)
  }

  lemma MasksApart(k: nat, k': nat)
    requires k < 8 && k' < 8
    ensures Apart(Mask(k), Mask(k')) && (k == k' <==> Mask(k) == Mask(k'))
  {
    hide Mask;
    MaskCases(k);
    MaskCases(k');
  }

  lemma MaskWritten(b: bv8, m: bv8, n: bv8)
    requires Apart(m, n)
    ensures Hits(n, WithBit(b, m)) <==> m == n || Hits(n, b)
    ensures Hits(n, WithoutBit(b, m)) <==> m != n && Hits(n, b)
  {
  }

  /** Writing one bit of a byte changes that bit only. */
  lemma ByteWritten(b: bv8, k: nat, k': nat)
    requires k < 8 && k' < 8
    ensures BitOf(WithBit(b, Mask(k)), k') <==> k' == k || BitOf(b, k')
    ensures BitOf(WithoutBit(b, Mask(k)), k') <==> k' != k && BitOf(b, k')
  {
    hide Mask, Hits, WithBit, WithoutBit, Apart;
    MasksApart(k, k');
    MaskWritten(b, Mask(k), Mask(k'));
  }

  /** Bits packed eight to a byte; all are set at first. */
  class BitFlags {
    const mem: array<bv8>

    /** All bits, including those that pad the last byte. */
    ghost function Bits(): (r: seq<bool>)
      reads mem
      ensures |r| == 8 * mem.Length
    {
      seq(8 * mem.Length, s requires 0 <= s < 8 * mem.Length reads mem => BitOf(mem[s / 8], s % 8))
    }

    constructor (nSize: nat)
      ensures fresh(mem) && mem.Length == (nSize + 7) / 8
      ensures forall s :: 0 <= s < |Bits()| ==> Bits()[s]
    {
      mem := new bv8[(nSize + 7) / 8](_ => 0xFF);
      new;
      forall s | 0 <= s < 8 * mem.Length
        ensures BitOf(mem[s / 8], s % 8)
      {
        FullByte(s % 8);
      }
    }

    method BitSet(s: nat)
      requires s < 8 * mem.Length
      modifies mem
      ensures Bits() == old(Bits())[s := true]
    {
      hide BitOf, Mask, WithBit, WithoutBit;
      forall k, k' | 0 <= k < 8 && 0 <= k' < 8
        ensures BitOf(WithBit(mem[s / 8], Mask(k)), k') <==> k' == k || BitOf(mem[s / 8], k')
      {
        ByteWritten(mem[s / 8], k, k');
      }
      mem[s / 8] := WithBit(mem[s / 8], Mask(s % 8));
    }

    method BitUnset(s: nat)
      requires s < 8 * mem.Length
      modifies mem
      ensures Bits() == old(Bits())[s := false]
    {
      hide BitOf, Mask, WithBit, WithoutBit;
      forall k, k' | 0 <= k < 8 && 0 <= k' < 8
        ensures BitOf(WithoutBit(mem[s / 8], Mask(k)), k') <==> k' != k && BitOf(mem[s / 8], k')
      {
        ByteWritten(mem[s / 8], k, k');
      }
      mem[s / 8] := WithoutBit(mem[s / 8], Mask(s % 8));
    }

    method BitIsSet(s: nat) returns (r: bool)
      requires s < 8 * mem.Length
      ensures r == Bits()[s]
    {
      r := BitOf(mem[s / 8], s % 8);
    }
  }

  lemma FullByte(k: nat)
    requires k < 8
    ensures BitOf(0xFF, k)
  {
    MaskCases(k);
  }

  // ---- Slots as values ----

  const TWO32 := 0x1_0000_0000

  /** One of the eight places of an element: a 32-bit hash scaled to the table. */
  function Loc<E>(hash: (nat, E) -> nat, nSize: nat, k: nat, e: E): nat {
    (hash(k, e) % TWO32) * nSize / TWO32
  }

  function Locs<E>(hash: (nat, E) -> nat, nSize: nat, e: E): (r: seq<nat>)
    ensures |r| == 8
  {
    seq(8, k requires 0 <= k < 8 => Loc(hash, nSize, k, e))
  }

  lemma ScaledBelow(h: int, n: int)
    requires 0 <= h < TWO32 && n > 0
    ensures 0 <= h * n / TWO32 < n
  {
    var x := h * n;
    var q := x / TWO32;
    MulNonneg(h, n);
    MulLess(n, h, TWO32);
    assert TWO32 * q <= x;
    QuotientBelow(TWO32, q, n, x);
  }

  /** In a table of 2^d slots the place of an element is the top d bits of its hash ... */
  lemma LocIsTopBits<E>(hash: (nat, E) -> nat, d: nat, k: nat, e: E)
    requires d <= 32 && hash(k, e) < 0x1_0000_0000
    ensures Pow(2, 32 - d) > 0 && Loc(hash, Pow(2, d), k, e) == hash(k, e) / Pow(2, 32 - d)
  {
    hide Pow;
    var h: int, n: int, w: int := hash(k, e), Pow(2, d), Pow(2, 32 - d);
    PowPositive(2, d);
    PowPositive(2, 32 - d);
    PowAdd(2, d, 32 - d);
    TwoTo32();
    ScaleAway(h, n, w);
  }

  lemma TwoTo32()
    ensures Pow(2, 32) == 0x1_0000_0000
  {
    assert Pow(2, 8) == 0x100;
    PowAdd(2, 8, 8);
    PowAdd(2, 16, 16);
  }

  lemma ScaleAway(h: int, n: int, w: int)
    requires h >= 0 && n > 0 && w > 0 && n * w == 0x1_0000_0000
    ensures h * n / 0x1_0000_0000 == h / w
  {
    var q, r := h / w, h % w;
    assert h == w * q + r;
    assert h * n == n * (w * q) + n * r;
    MulAssoc(n, w, q);
    MulNonneg(n, r);
    MulLess(n, r, w);
    DivUnique(h * n, 0x1_0000_0000, q, n * r);
  }

  /** ... so every slot is the place of some hash. */
  lemma EverySlotReached<E>(hash: (nat, E) -> nat, d: nat, k: nat, e: E, slot: nat)
    requires d <= 32 && slot < Pow(2, d) && hash(k, e) == slot * Pow(2, 32 - d)
    ensures Loc(hash, Pow(2, d), k, e) == slot
  {
    hide Pow, Loc;
    var s: int, n: int, w: int := slot, Pow(2, d), Pow(2, 32 - d);
    PowPositive(2, 32 - d);
    PowAdd(2, d, 32 - d);
    TwoTo32();
    MulLess(w, s, n);
    LocIsTopBits(hash, d, k, e);
    DivUnique(s * w, w, s, 0);
  }

  lemma LocsInRange<E>(hash: (nat, E) -> nat, nSize: nat, e: E)
    requires nSize > 0
    ensures forall k :: 0 <= k < 8 ==> 0 <= Locs(hash, nSize, e)[k] < nSize
  {
    forall k | 0 <= k < 8
      ensures 0 <= Locs(hash, nSize, e)[k] < nSize
    {
      ScaledBelow(hash(k, e) % TWO32, nSize);
    }
  }

  /** How many of the first n slots hold a kept entry of the current epoch. */
  ghost function Live(free: seq<bool>, epoch: seq<bool>, n: nat): int
    requires n <= |free| && n <= |epoch|
  {
    if n == 0 then 0 else Live(free, epoch, n - 1) + One(epoch[n - 1] && !free[n - 1])
  }

  ghost function Held<E>(x: E, isFree: bool): multiset<E> {
    if isFree then multiset{} else multiset{x}
  }

  /** The entries that must not be dropped. */
  ghost function Kept<E>(table: seq<E>, free: seq<bool>, n: nat): multiset<E>
    requires n <= |free| && n <= |table|
  {
    if n == 0 then multiset{} else Kept(table, free, n - 1) + Held(table[n - 1], free[n - 1])
  }

  lemma {:induction false} LiveUpdate(free: seq<bool>, epoch: seq<bool>, n: nat, i: nat, f: bool, e: bool)
    requires n <= |free| && n <= |epoch| && i < |free| && i < |epoch|
    ensures Live(free[i := f], epoch[i := e], n)
         == if i < n then Live(free, epoch, n) - One(epoch[i] && !free[i]) + One(e && !f) else Live(free, epoch, n)
  {
    if n > 0 {
      LiveUpdate(free, epoch, n - 1, i, f, e);
    }
  }

  lemma {:induction false} KeptUpdate<E>(table: seq<E>, free: seq<bool>, n: nat, i: nat, x: E, f: bool)
    requires n <= |free| && n <= |table| && i < |free| && i < |table|
    ensures if i < n
            then Kept(table[i := x], free[i := f], n) + Held(table[i], free[i]) == Kept(table, free, n) + Held(x, f)
            else Kept(table[i := x], free[i := f], n) == Kept(table, free, n)
  {
    hide Held;
    if n > 0 {
      KeptUpdate(table, free, n - 1, i, x, f);
      if i < n - 1 {
        BagShuffle(Kept(table[i := x], free[i := f], n - 1), Held(table[i], free[i]),
                   Kept(table, free, n - 1), Held(x, f), Held(table[n - 1], free[n - 1]));
      }
    }
  }

  lemma {:induction false} LiveBound(free: seq<bool>, epoch: seq<bool>, n: nat)
    requires n <= |free| && n <= |epoch|
    ensures 0 <= Live(free, epoch, n) <= n
    ensures (forall i :: 0 <= i < n ==> !epoch[i] || free[i]) ==> Live(free, epoch, n) == 0
  {
    if n > 0 {
      LiveBound(free, epoch, n - 1);
    }
  }

  lemma {:induction false} KeptHas<E>(table: seq<E>, free: seq<bool>, n: nat, x: E)
    requires n <= |free| && n <= |table|
    ensures x in Kept(table, free, n) <==> exists i :: 0 <= i < n && !free[i] && table[i] == x
  {
    if n > 0 {
      KeptHas(table, free, n - 1, x);
      var before, last := Kept(table, free, n - 1), Held(table[n - 1], free[n - 1]);
      assert Kept(table, free, n) == before + last;
      hide Kept;
      assert x in before + last <==> x in before || x in last;
      if x in before + last && x !in before {
        assert !free[n - 1] && table[n - 1] == x;
      }
    }
  }

  /** Every entry that must not be dropped sits in one of its own places. */
  ghost predicate Homed<E>(hash: (nat, E) -> nat, nSize: nat, table: seq<E>, free: seq<bool>)
    requires nSize <= |free| && nSize <= |table|
  {
    forall i :: 0 <= i < nSize && !free[i] ==> i in Locs(hash, nSize, table[i])
  }

  /** How far the live entries of the current epoch can outrun the epoch size. */
  function Slack(nEpochSize: nat): nat {
    if nEpochSize / 16 > 1 then nEpochSize / 16 else 1
  }

  /** The floor of the binary logarithm. */
  function Log2(n: nat): nat
    requires n >= 1
  {
    if n == 1 then 0 else 1 + Log2(n / 2)
  }

  lemma {:induction false} Log2Bounds(n: nat)
    requires n >= 1
    ensures Pow(2, Log2(n)) <= n < Pow(2, Log2(n) + 1)
  {
    hide Pow;
    if n == 1 {
      PowNext(2, 0);
    } else {
      Log2Bounds(n / 2);
      PowNext(2, Log2(n / 2));
      PowNext(2, Log2(n / 2) + 1);
    }
  }

  /** When to scan next: not before the epoch could be full, but not too often. */
  function NextScan(nEpochSize: nat, unused: nat): (r: nat)
    requires unused < nEpochSize
    ensures r >= 1 && unused + r + 1 <= nEpochSize + Slack(nEpochSize)
  {
    Max(1, Max(nEpochSize / 16, nEpochSize - unused))
  }

  /** How the counter goes on: down by one until it has run out. Then it starts again at the
      epoch size if the epoch is full, and otherwise at the least number that is not below
      one, a sixteenth of the epoch and what is missing from it. */
  ghost predicate CountedDown(before: int, live: int, nEpochSize: nat, after: int) {
    if before != 0 then after == before - 1
    else if live >= nEpochSize then after == nEpochSize
    else
      && after >= 1 && after >= nEpochSize / 16 && after >= nEpochSize - live
      && (after == 1 || after == nEpochSize / 16 || after == nEpochSize - live)
  }

  lemma StillCounting(before: int, live: int, nEpochSize: nat)
    requires before != 0
    ensures CountedDown(before, live, nEpochSize, before - 1)
  {
  }

  lemma Recounted(live: nat, nEpochSize: nat)
    ensures CountedDown(0, live, nEpochSize, if live >= nEpochSize then nEpochSize else NextScan(nEpochSize, live))
  {
  }

  lemma SlackPositive(nEpochSize: nat)
    ensures Slack(nEpochSize) >= 1
  {
  }

  /** Writing an element into one of its own places. */
  lemma WriteSlot<E>(hash: (nat, E) -> nat, nSize: nat, t: seq<E>, free: seq<bool>, epoch: seq<bool>,
                     loc: nat, e: E, newEpoch: bool)
    requires loc < nSize == |t| == |epoch| && nSize <= |free|
    requires Homed(hash, nSize, t, free) && loc in Locs(hash, nSize, e)
    ensures Homed(hash, nSize, t[loc := e], free[loc := false])
    ensures Live(free[loc := false], epoch[loc := newEpoch], nSize)
         == Live(free, epoch, nSize) - One(epoch[loc] && !free[loc]) + One(newEpoch)
    ensures Kept(t[loc := e], free[loc := false], nSize) + Held(t[loc], free[loc]) == Kept(t, free, nSize) + multiset{e}
    ensures multiset(t[loc := e]) + multiset{t[loc]} == multiset(t) + multiset{e}
  {
    hide Live, Kept, Locs;
    LiveUpdate(free, epoch, nSize, loc, false, newEpoch);
    KeptUpdate(t, free, nSize, loc, e, false);
    assert multiset(t[loc := e]) == multiset(t) - multiset{t[loc]} + multiset{e};
    assert t[loc] in multiset(t);
  }

  // ---- Displacing one entry after another ----

  /** The slots, their epochs, and the element in hand with the epoch it carries. */
  datatype Hand<E> = Hand(t: seq<E>, epoch: seq<bool>, e: E, isNew: bool)

  /** None of an element's places is free. */
  ghost predicate Blocked<E>(hash: (nat, E) -> nat, nSize: nat, free: seq<bool>, e: E) {
    forall k :: 0 <= k < 8 && Locs(hash, nSize, e)[k] < |free| ==> !free[Locs(hash, nSize, e)[k]]
  }

  /** The first index of a place, or the length if it is not there. */
  ghost predicate FirstAt(locs: seq<nat>, last: int, i: int) {
    0 <= i <= |locs| && (i < |locs| ==> locs[i] == last) && forall k :: 0 <= k < i ==> locs[k] != last
  }

  /** The place taken after the last one: the next of the eight, or the second if the last
      is none of them. */
  ghost predicate NextTurn(locs: seq<nat>, last: int, loc: nat)
    requires |locs| == 8
  {
    exists i :: FirstAt(locs, last, i) && loc == locs[(1 + i) % 8]
  }

  /** A free place of an element with no free place before it. */
  ghost predicate FirstFree(locs: seq<nat>, free: seq<bool>, loc: nat)
    requires |locs| == 8
  {
    exists i :: && 0 <= i < 8 && locs[i] == loc && loc < |free| && free[loc]
                && forall k :: 0 <= k < i ==> locs[k] < |free| && !free[locs[k]]
  }

  ghost predicate Within(path: seq<nat>, nSize: nat) {
    forall k :: 0 <= k < |path| ==> path[k] < nSize
  }

  /** The hand after swapping with the slots of a path, one after another. */
  ghost function After<E>(h: Hand<E>, path: seq<nat>): (r: Hand<E>)
    requires |h.t| == |h.epoch| && Within(path, |h.t|)
    ensures |r.t| == |r.epoch| == |h.t|
    decreases |path|
  {
    if path == [] then h
    else
      var g, loc := After(h, path[..|path| - 1]), path[|path| - 1];
      Hand(g.t[loc := g.e], g.epoch[loc := g.isNew], g.t[loc], g.epoch[loc])
  }

  ghost function LastOf(path: seq<nat>): int {
    if path == [] then TWO32 - 1 else path[|path| - 1]
  }

  /** The slots of a path are displaced in turn: each time no place of the element in hand
      is free, and the place it takes follows the one taken before. */
  ghost predicate Chain<E>(hash: (nat, E) -> nat, nSize: nat, free: seq<bool>, h: Hand<E>, path: seq<nat>)
    requires |h.t| == |h.epoch| == nSize && Within(path, nSize)
    decreases |path|
  {
    path != [] ==>
      var n := |path| - 1;
      var g := After(h, path[..n]);
      && Chain(hash, nSize, free, h, path[..n]) && Blocked(hash, nSize, free, g.e)
      && NextTurn(Locs(hash, nSize, g.e), LastOf(path[..n]), path[n])
  }

  lemma ChainNext<E>(hash: (nat, E) -> nat, nSize: nat, free: seq<bool>, h: Hand<E>, path: seq<nat>, loc: nat)
    requires |h.t| == |h.epoch| == nSize && Within(path, nSize) && loc < nSize
    requires Chain(hash, nSize, free, h, path) && Blocked(hash, nSize, free, After(h, path).e)
    requires NextTurn(Locs(hash, nSize, After(h, path).e), LastOf(path), loc)
    ensures Within(path + [loc], nSize) && Chain(hash, nSize, free, h, path + [loc])
    ensures var g := After(h, path);
            After(h, path + [loc]) == Hand(g.t[loc := g.e], g.epoch[loc := g.isNew], g.t[loc], g.epoch[loc])
  {
    hide Blocked, NextTurn;
    assert (path + [loc])[..|path|] == path;
  }

  datatype Outcome =
    | Present(loc: nat)                   // the element was there already
    | Placed(path: seq<nat>, loc: nat)    // after the displacements of a path a place was free
    | Exhausted(path: seq<nat>)           // the last entry displaced was dropped

  /** Exactly what an insertion does to the slots, given which of them were free. An element
      in one of its places stays there. Otherwise entries are displaced in turn until the
      one in hand has a free place, whose occupant is dropped, or until the depth limit,
      when the one in hand is dropped. */
  ghost predicate InsertDone<E>(
    hash: (nat, E) -> nat, nSize: nat, depthLimit: nat, h: Hand<E>, free: seq<bool>,
    t: seq<E>, epoch: seq<bool>, free': seq<bool>, dropped: E, outcome: Outcome)
  {
    && |h.t| == |h.epoch| == nSize <= |free|
    && match outcome
       case Present(loc) =>
         && loc < nSize && h.t[loc] == h.e && loc in Locs(hash, nSize, h.e)
         && t == h.t && epoch == h.epoch[loc := true] && free' == free[loc := false]
       case Placed(path, loc) =>
         && |path| < depthLimit && Within(path, nSize) && Chain(hash, nSize, free, h, path) && loc < nSize
         && var g := After(h, path);
         && FirstFree(Locs(hash, nSize, g.e), free, loc) && dropped == h.t[loc]
         && t == g.t[loc := g.e] && epoch == g.epoch[loc := g.isNew] && free' == free[loc := false]
       case Exhausted(path) =>
         && |path| == depthLimit && Within(path, nSize) && Chain(hash, nSize, free, h, path)
         && var g := After(h, path);
         dropped == g.e && t == g.t && epoch == g.epoch && free' == free
  }

  /** An element that is not there yet and has a free place takes the first of them, and
      nothing else moves; so it is never dropped, and nothing is displaced for it. */
  lemma StoredDirectly<E>(
    hash: (nat, E) -> nat, nSize: nat, depthLimit: nat, h: Hand<E>, free: seq<bool>,
    t: seq<E>, epoch: seq<bool>, free': seq<bool>, dropped: E, outcome: Outcome)
    requires InsertDone(hash, nSize, depthLimit, h, free, t, epoch, free', dropped, outcome)
    requires !outcome.Present? && depthLimit >= 1 && !Blocked(hash, nSize, free, h.e)
    ensures outcome.Placed? && outcome.path == [] && FirstFree(Locs(hash, nSize, h.e), free, outcome.loc)
    ensures t == h.t[outcome.loc := h.e]
  {
    hide Blocked, FirstFree, NextTurn, Locs;
    if outcome.path != [] {
      ChainStart(hash, nSize, free, h, outcome.path);
    }
  }

  /** The first displacement happens because no place of the element itself was free. */
  lemma {:induction false} ChainStart<E>(hash: (nat, E) -> nat, nSize: nat, free: seq<bool>, h: Hand<E>, path: seq<nat>)
    requires |h.t| == |h.epoch| == nSize && Within(path, nSize) && path != [] && Chain(hash, nSize, free, h, path)
    ensures Blocked(hash, nSize, free, h.e)
    decreases |path|
  {
    hide Blocked, NextTurn, Locs;
    var n := |path| - 1;
    if n > 0 {
      ChainStart(hash, nSize, free, h, path[..n]);
    }
  }

  // ---- What displacing conserves ----

  /** The entries before and the element are the entries after and the one in hand, of all
      slots and of those that are not free; live entries are counted with the hand. */
  ghost predicate Displacing<E>(hash: (nat, E) -> nat, nSize: nat, free: seq<bool>, h: Hand<E>, g: Hand<E>) {
    && nSize == |h.t| == |h.epoch| == |g.t| == |g.epoch| <= |free|
    && Homed(hash, nSize, g.t, free)
    && multiset(g.t) + multiset{g.e} == multiset(h.t) + multiset{h.e}
    && Kept(g.t, free, nSize) + multiset{g.e} == Kept(h.t, free, nSize) + multiset{h.e}
    && Live(free, g.epoch, nSize) + One(g.isNew) == Live(free, h.epoch, nSize) + One(h.isNew)
    && forall i :: 0 <= i < nSize && free[i] ==> g.t[i] == h.t[i]
  }

  lemma DisplaceStep<E>(hash: (nat, E) -> nat, nSize: nat, free: seq<bool>, h: Hand<E>, g: Hand<E>, loc: nat)
    requires Displacing(hash, nSize, free, h, g)
    requires loc < nSize && loc in Locs(hash, nSize, g.e) && !free[loc]
    ensures Displacing(hash, nSize, free, h, Hand(g.t[loc := g.e], g.epoch[loc := g.isNew], g.t[loc], g.epoch[loc]))
  {
    hide Live, Kept, Locs, Homed;
    WriteSlot(hash, nSize, g.t, free, g.epoch, loc, g.e, g.isNew);
    assert free[loc := false] == free;
  }

  /** Every chain of displacements conserves the entries and the live count. */
  lemma {:induction false} ChainConserves<E>(hash: (nat, E) -> nat, nSize: nat, free: seq<bool>, h: Hand<E>,
                                              path: seq<nat>)
    requires |h.t| == |h.epoch| == nSize <= |free| && Within(path, nSize)
    requires Chain(hash, nSize, free, h, path) && Homed(hash, nSize, h.t, free)
    ensures Displacing(hash, nSize, free, h, After(h, path))
    decreases |path|
  {
    hide Live, Kept, Locs, Homed;
    if path != [] {
      var n := |path| - 1;
      ChainConserves(hash, nSize, free, h, path[..n]);
      DisplaceStep(hash, nSize, free, h, After(h, path[..n]), path[n]);
    }
  }

  /** The old entries and the new one are the new entries and at most one dropped. Of the
      entries that must not be dropped none is lost unless the depth limit was reached. */
  ghost predicate Conserved<E>(
    nSize: nat, t0: seq<E>, free: seq<bool>, t: seq<E>, free': seq<bool>, e: E, dropped: E, outcome: Outcome)
  {
    && nSize == |t0| == |t| && nSize <= |free| && nSize <= |free'|
    && (outcome.Present? ==> t == t0)
    && (!outcome.Present? ==> multiset(t) + multiset{dropped} == multiset(t0) + multiset{e})
    && (outcome.Placed? ==> Kept(t, free', nSize) == Kept(t0, free, nSize) + multiset{e})
    && (outcome.Exhausted? ==> Kept(t, free', nSize) + multiset{dropped} == Kept(t0, free, nSize) + multiset{e})
    && (!outcome.Exhausted? ==> e in Kept(t, free', nSize))
  }

  lemma InsertConserves<E>(
    hash: (nat, E) -> nat, nSize: nat, depthLimit: nat, h: Hand<E>, free: seq<bool>,
    t: seq<E>, epoch: seq<bool>, free': seq<bool>, dropped: E, outcome: Outcome)
    requires InsertDone(hash, nSize, depthLimit, h, free, t, epoch, free', dropped, outcome)
    requires Homed(hash, nSize, h.t, free) && h.isNew
    ensures |t| == |epoch| == nSize <= |free'| && Homed(hash, nSize, t, free')
    ensures Conserved(nSize, h.t, free, t, free', h.e, dropped, outcome)
    ensures Live(free', epoch, nSize) <= Live(free, h.epoch, nSize) + 1
  {
    hide Live, Kept, Locs, Homed, Chain, After, FirstFree;
    match outcome
    case Present(loc) =>
      WriteSlot(hash, nSize, h.t, free, h.epoch, loc, h.e, true);
      assert h.t[loc := h.e] == h.t;
      KeptHas(h.t, free', nSize, h.e);
    case Placed(path, loc) =>
      ChainConserves(hash, nSize, free, h, path);
      FirstIsPlace(hash, nSize, free, After(h, path).e, loc);
      PlaceConserves(hash, nSize, free, h, After(h, path), loc);
    case Exhausted(path) =>
      ChainConserves(hash, nSize, free, h, path);
  }

  lemma FirstIsPlace<E>(hash: (nat, E) -> nat, nSize: nat, free: seq<bool>, e: E, loc: nat)
    requires FirstFree(Locs(hash, nSize, e), free, loc)
    ensures loc in Locs(hash, nSize, e) && loc < |free| && free[loc]
  {
    hide Locs;
  }

  lemma PlaceConserves<E>(hash: (nat, E) -> nat, nSize: nat, free: seq<bool>, h: Hand<E>, g: Hand<E>, loc: nat)
    requires Displacing(hash, nSize, free, h, g) && h.isNew
    requires loc < nSize && loc in Locs(hash, nSize, g.e) && free[loc]
    ensures var t, free' := g.t[loc := g.e], free[loc := false];
            && Homed(hash, nSize, t, free')
            && multiset(t) + multiset{h.t[loc]} == multiset(h.t) + multiset{h.e}
            && Kept(t, free', nSize) == Kept(h.t, free, nSize) + multiset{h.e}
            && Live(free', g.epoch[loc := g.isNew], nSize) == Live(free, h.epoch, nSize) + 1
  {
    hide Live, Kept, Locs, Homed;
    WriteSlot(hash, nSize, g.t, free, g.epoch, loc, g.e, g.isNew);
    var t, free' := g.t[loc := g.e], free[loc := false];
    assert Kept(t, free', nSize) + multiset{} == Kept(t, free', nSize);
  }

  method IndexOf(locs: seq<nat>, loc: int) returns (i: nat)
    ensures FirstAt(locs, loc, i)
  {
    i := 0;
    while i < |locs| && locs[i] != loc
      invariant i <= |locs| && forall k :: 0 <= k < i ==> locs[k] != loc
    {
      i := i + 1;
    }
  }

  lemma TurnIs(locs: seq<nat>, last: int, i: nat)
    requires |locs| == 8 && FirstAt(locs, last, i)
    ensures NextTurn(locs, last, locs[(1 + i) % 8])
  {
  }

  lemma ChainEmpty<E>(hash: (nat, E) -> nat, nSize: nat, free: seq<bool>, h: Hand<E>)
    requires |h.t| == |h.epoch| == nSize
    ensures Chain(hash, nSize, free, h, []) && After(h, []) == h
  {
  }

  /** Displacing never touches a free slot. */
  lemma {:induction false} FreeUntouched<E>(hash: (nat, E) -> nat, nSize: nat, free: seq<bool>, h: Hand<E>,
                                            path: seq<nat>, loc: nat)
    requires |h.t| == |h.epoch| == nSize <= |free| && Within(path, nSize) && Chain(hash, nSize, free, h, path)
    requires loc < nSize && free[loc]
    ensures After(h, path).t[loc] == h.t[loc]
    decreases |path|
  {
    hide Locs;
    if path != [] {
      FreeUntouched(hash, nSize, free, h, path[..|path| - 1], loc);
    }
  }

  class Cache<E(==, !new)> {
    const hash: (nat, E) -> nat
    const depthLimit: nat
    const nSize: nat
    const nEpochSize: nat
    const vTable: array<E>
    const vEpochFlags: array<bool>
    const collectionFlags: BitFlags
    var nEpochHeuristicCounter: int

    /** Which slots may be overwritten. */
    ghost function Free(): seq<bool>
      reads collectionFlags.mem
    {
      collectionFlags.Bits()
    }

    ghost predicate Sized() {
      && nSize > 0 && depthLimit >= 1 && nEpochSize >= 1
      && vTable.Length == vEpochFlags.Length == nSize <= 8 * collectionFlags.mem.Length
      && vTable as object != vEpochFlags && vTable as object != collectionFlags.mem
      && vEpochFlags as object != collectionFlags.mem
    }

    ghost predicate Shaped()
      reads vTable, vEpochFlags, collectionFlags.mem
    {
      Sized() && Homed(hash, nSize, vTable[..], Free())
    }

    ghost function LiveCount(): int
      requires Shaped()
      reads vTable, vEpochFlags, collectionFlags.mem
    {
      Live(Free(), vEpochFlags[..], nSize)
    }

    ghost predicate Valid()
      reads this, vTable, vEpochFlags, collectionFlags.mem
    {
      && Shaped()
      && 0 <= nEpochHeuristicCounter
      && LiveCount() + nEpochHeuristicCounter <= nEpochSize + Slack(nEpochSize)
    }

    /** An empty cache with the largest power of two of slots not above the size asked for,
        at least two; 45 percent of them make an epoch, computed in 32-bit arithmetic. */
    constructor (hash: (nat, E) -> nat, newSize: nat, blank: E)
      requires newSize < TWO32
      ensures Valid() && this.hash == hash && fresh(vTable) && fresh(vEpochFlags) && fresh(collectionFlags.mem)
      ensures nSize == Pow(2, depthLimit) <= Max(2, newSize) < 2 * nSize
      ensures nEpochSize == Max(1, 45 * nSize % TWO32 / 100)
      ensures forall i :: 0 <= i < nSize ==> Free()[i]
    {
      this.hash := hash;
      var depth := Log2(Max(2, newSize));
      Log2Bounds(Max(2, newSize));
      this.depthLimit := depth;
      PowNext(2, depth);
      PowPositive(2, depth);
      assert depth >= 1 by { PowNext(2, 0); }
      var n := Pow(2, depth);
      nSize := n;
      var epochSize := Max(1, 45 * n % TWO32 / 100);
      nEpochSize := epochSize;
      vTable := new E[n](_ => blank);
      var epochs := new bool[n](_ => false);
      vEpochFlags := epochs;
      collectionFlags := new BitFlags(n);
      nEpochHeuristicCounter := epochSize;
      new;
      LiveBound(Free(), vEpochFlags[..], nSize);
    }

    /** Ages the epochs: when the counter has run out and the current epoch is full, the
        entries of the previous epoch may be dropped and the current one becomes previous. */
    method EpochCheck()
      requires Valid()
      modifies this, vEpochFlags, collectionFlags.mem
      ensures Shaped() && 0 <= nEpochHeuristicCounter
      ensures LiveCount() + nEpochHeuristicCounter + 1 <= nEpochSize + Slack(nEpochSize)
      ensures if old(nEpochHeuristicCounter) == 0 && old(LiveCount()) >= nEpochSize then
                forall i :: 0 <= i < nSize ==> !vEpochFlags[i] && Free()[i] == (old(Free())[i] || !old(vEpochFlags[i]))
              else vEpochFlags[..] == old(vEpochFlags[..]) && Free() == old(Free())
      ensures forall i :: 0 <= i < nSize && old(Free())[i] ==> Free()[i]
      ensures CountedDown(old(nEpochHeuristicCounter), old(LiveCount()), nEpochSize, nEpochHeuristicCounter)
    {
      hide Homed, Live, Slack, NextScan, CountedDown;
      SlackPositive(nEpochSize);
      if nEpochHeuristicCounter != 0 {
        nEpochHeuristicCounter := nEpochHeuristicCounter - 1;
        StillCounting(nEpochHeuristicCounter + 1, LiveCount(), nEpochSize);
        return;
      }
      var nEpochUnusedCount := CountLive();
      Recounted(nEpochUnusedCount, nEpochSize);
      if nEpochUnusedCount >= nEpochSize {
        Age();
        nEpochHeuristicCounter := nEpochSize;
      } else {
        nEpochHeuristicCounter := NextScan(nEpochSize, nEpochUnusedCount);
      }
    }

    /** Counts the entries of the current epoch that have not been erased. */
    method CountLive() returns (n: nat)
      requires Shaped()
      ensures n == LiveCount()
    {
      hide Homed;
      n := 0;
      for i := 0 to nSize
        invariant n == Live(Free(), vEpochFlags[..], i)
      {
        var dropped := collectionFlags.BitIsSet(i);
        if vEpochFlags[i] && !dropped {
          n := n + 1;
        }
      }
    }

    /** Frees the slots of the previous epoch and starts a new one. */
    method Age()
      requires Shaped()
      modifies vEpochFlags, collectionFlags.mem
      ensures Shaped() && LiveCount() == 0
      ensures forall i :: 0 <= i < nSize ==> !vEpochFlags[i] && Free()[i] == (old(Free())[i] || !old(vEpochFlags[i]))
    {
      for i := 0 to nSize
        invariant Shaped()
        invariant forall k :: 0 <= k < i ==> !vEpochFlags[k] && Free()[k] == (old(Free())[k] || !old(vEpochFlags[k]))
        invariant forall k :: i <= k < nSize ==> vEpochFlags[k] == old(vEpochFlags[k]) && Free()[k] == old(Free())[k]
      {
        if vEpochFlags[i] {
          vEpochFlags[i] := false;
        } else {
          collectionFlags.BitSet(i);
        }
      }
      LiveBound(Free(), vEpochFlags[..], nSize);
    }

    /** Looks for an element in its places. */
    method Search(e: E) returns (found: bool, loc: nat)
      requires Shaped()
      ensures found ==> loc < nSize && loc in Locs(hash, nSize, e) && vTable[loc] == e
      ensures !found ==> forall k :: k in Locs(hash, nSize, e) && k < nSize ==> vTable[k] != e
    {
      hide Homed;
      LocsInRange(hash, nSize, e);
      var locs := Locs(hash, nSize, e);
      hide Locs, Loc;
      found, loc := false, 0;
      for i := 0 to 8
        invariant forall k :: 0 <= k < i ==> vTable[locs[k]] != e
      {
        if vTable[locs[i]] == e {
          return true, locs[i];
        }
      }
    }

    /** Whether an element is in the cache; with erase, its slot may be overwritten. Every
        entry that must not be dropped is found. */
    method Contains(e: E, erase: bool) returns (r: bool)
      requires Valid()
      modifies collectionFlags.mem
      ensures Valid()
      ensures r <==> exists k :: 0 <= k < 8 && Locs(hash, nSize, e)[k] < nSize && vTable[Locs(hash, nSize, e)[k]] == e
      ensures e in Kept(vTable[..], old(Free()), nSize) ==> r
      ensures !r || !erase ==> Free() == old(Free())
      ensures r && erase ==> exists loc :: 0 <= loc < nSize && vTable[loc] == e && Free() == old(Free())[loc := true]
    {
      hide Live, Kept;
      var loc;
      r, loc := Search(e);
      KeptFound(e, r);
      hide Homed;
      if r && erase {
        LiveUpdate(Free(), vEpochFlags[..], nSize, loc, true, vEpochFlags[loc]);
        assert vEpochFlags[..][loc := vEpochFlags[loc]] == vEpochFlags[..];
        HomedFreed(loc);
        collectionFlags.BitSet(loc);
      }
    }

    lemma KeptFound(e: E, r: bool)
      requires Shaped()
      requires !r ==> forall k :: k in Locs(hash, nSize, e) && k < nSize ==> vTable[k] != e
      ensures e in Kept(vTable[..], Free(), nSize) ==> r
    {
      KeptHas(vTable[..], Free(), nSize, e);
    }

    lemma HomedFreed(loc: nat)
      requires Shaped() && loc < nSize
      ensures Homed(hash, nSize, vTable[..], Free()[loc := true])
    {
    }

    /** Looks for the first free place of an element. */
    method FindFree(e: E) returns (found: bool, loc: nat)
      requires Sized()
      ensures found ==> loc < nSize && FirstFree(Locs(hash, nSize, e), Free(), loc)
      ensures !found ==> Blocked(hash, nSize, Free(), e)
    {
      LocsInRange(hash, nSize, e);
      var locs := Locs(hash, nSize, e);
      hide Locs, Loc;
      found, loc := false, 0;
      for i := 0 to 8
        invariant forall k :: 0 <= k < i ==> !Free()[locs[k]]
      {
        var isFree := collectionFlags.BitIsSet(locs[i]);
        if isFree {
          return true, locs[i];
        }
      }
    }

    /** Finds a slot for an element that is not there yet, displacing others on the way. */
    method Settle(element: E) returns (ghost outcome: Outcome, ghost dropped: E)
      requires Sized()
      modifies vTable, vEpochFlags, collectionFlags.mem
      ensures !outcome.Present?
      ensures InsertDone(hash, nSize, depthLimit, Hand(old(vTable[..]), old(vEpochFlags[..]), element, true),
                         old(Free()), vTable[..], vEpochFlags[..], Free(), dropped, outcome)
    {
      hide Locs, Chain, After, Blocked, NextTurn, FirstFree;
      var e, lastEpoch, lastLoc := element, true, TWO32 - 1;
      ghost var h, free, path: seq<nat> := Hand(vTable[..], vEpochFlags[..], element, true), Free(), [];
      ChainEmpty(hash, nSize, free, h);
      for depth := 0 to depthLimit
        invariant |path| == depth && Within(path, nSize) && Chain(hash, nSize, free, h, path)
        invariant After(h, path) == Hand(vTable[..], vEpochFlags[..], e, lastEpoch)
        invariant lastLoc == LastOf(path) && Free() == free
      {
        var found, loc := FindFree(e);
        if found {
          FirstIsPlace(hash, nSize, free, e, loc);
          FreeUntouched(hash, nSize, free, h, path, loc);
          vTable[loc] := e;
          collectionFlags.BitUnset(loc);
          vEpochFlags[loc] := lastEpoch;
          outcome, dropped := Placed(path, loc), h.t[loc];
          return;
        }
        var locs := Locs(hash, nSize, e);
        LocsInRange(hash, nSize, e);
        var index := IndexOf(locs, lastLoc);
        var next := locs[(1 + index) % 8];
        TurnIs(locs, lastLoc, index);
        ChainNext(hash, nSize, free, h, path, next);
        var displaced, epoch := vTable[next], vEpochFlags[next];
        vTable[next] := e;
        vEpochFlags[next] := lastEpoch;
        e, lastEpoch, lastLoc := displaced, epoch, next;
        path := path + [next];
      }
      outcome, dropped := Exhausted(path), e;
    }

    /** Marks an entry in one of its places as current and not to be dropped. */
    method Keep(loc: nat, e: E)
      requires Sized() && loc < nSize && vTable[loc] == e && loc in Locs(hash, nSize, e)
      modifies vEpochFlags, collectionFlags.mem
      ensures InsertDone(hash, nSize, depthLimit, Hand(vTable[..], old(vEpochFlags[..]), e, true),
                         old(Free()), vTable[..], vEpochFlags[..], Free(), e, Present(loc))
    {
      hide Locs;
      collectionFlags.BitUnset(loc);
      vEpochFlags[loc] := true;
    }

    /** Inserts an element: the epochs may age, which is the only way slots become free, and
        then the slots change exactly as stated. Unless the depth limit is reached, no entry
        that must not be dropped is lost and the element is found afterwards. */
    method Insert(element: E)
      returns (ghost outcome: Outcome, ghost free: seq<bool>, ghost epoch: seq<bool>, ghost dropped: E)
      requires Valid()
      modifies this, vTable, vEpochFlags, collectionFlags.mem
      ensures Valid() && |free| >= nSize && |epoch| == nSize
      ensures if old(nEpochHeuristicCounter) == 0 && old(LiveCount()) >= nEpochSize then
                forall i :: 0 <= i < nSize ==> !epoch[i] && free[i] == (old(Free())[i] || !old(vEpochFlags[i]))
              else epoch == old(vEpochFlags[..]) && free == old(Free())
      ensures InsertDone(hash, nSize, depthLimit, Hand(old(vTable[..]), epoch, element, true),
                         free, vTable[..], vEpochFlags[..], Free(), dropped, outcome)
      ensures Conserved(nSize, old(vTable[..]), free, vTable[..], Free(), element, dropped, outcome)
      ensures LiveCount() <= nEpochSize + Slack(nEpochSize)
      ensures CountedDown(old(nEpochHeuristicCounter), old(LiveCount()), nEpochSize, nEpochHeuristicCounter)
      ensures outcome.Present? <==> exists k :: 0 <= k < 8 && Locs(hash, nSize, element)[k] < nSize
                                      && old(vTable[..])[Locs(hash, nSize, element)[k]] == element
    {
      hide Live, Homed, Slack, InsertDone, Kept, Conserved;
      EpochCheck();
      free, epoch := Free(), vEpochFlags[..];
      var found, loc := Search(element);
      hide Loc, Locs;
      if found {
        Keep(loc, element);
        outcome, dropped := Present(loc), element;
      } else {
        outcome, dropped := Settle(element);
      }
      InsertConserves(hash, nSize, depthLimit, Hand(old(vTable[..]), epoch, element, true), free,
                      vTable[..], vEpochFlags[..], Free(), dropped, outcome);
    }
  }
}
