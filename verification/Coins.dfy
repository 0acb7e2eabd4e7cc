/** Unspent transaction outputs, cache entries over them, and the map a cache shows. */
module Coins {

  datatype OutPoint = OutPoint(hash: nat)

  /** An output and where it was created; a value of -1 marks it spent. */
  datatype Coin = Coin(value: int, script: seq<nat>, height: nat, coinbase: bool)

  const NULL_COIN := Coin(-1, [], 0, false)

  predicate IsSpent(c: Coin) {
    c.value == -1
  }

  const OP_RETURN: nat := 0x6a
  const MAX_SCRIPT_SIZE: nat := 10000

  predicate IsUnspendable(script: seq<nat>) {
    (|script| > 0 && script[0] == OP_RETURN) || |script| > MAX_SCRIPT_SIZE
  }

  /** Heap bytes of a coin: scripts of up to 28 bytes are stored inline, longer
      ones in a malloc block of their size. */
  function DynamicUsage(c: Coin): nat {
    if |c.script| <= 28 then 0 else (|c.script| + 31) / 16 * 16
  }

  /** A script stored inline takes no heap; any other takes a multiple of sixteen bytes with
      sixteen to thirty-one to spare. */
  lemma UsageShape(c: Coin)
    ensures |c.script| <= 28 ==> DynamicUsage(c) == 0
    ensures |c.script| > 28 ==> DynamicUsage(c) % 16 == 0 && |c.script| + 16 <= DynamicUsage(c) <= |c.script| + 31
  {
  }

  datatype Entry = Entry(coin: Coin, isDirty: bool, isFresh: bool)

  type Utxos = map<OutPoint, Coin>
  type Entries = map<OutPoint, Entry>

  /** The unspent coins seen through a cache: its own entries first, the base
      elsewhere. */
  ghost function Visible(cache: Entries, base: Utxos): Utxos {
    map o | o in cache.Keys + base.Keys && (o in cache ==> !IsSpent(cache[o].coin))
      :: if o in cache then cache[o].coin else base[o]
  }

  /** What the flags promise: FRESH means the base has no unspent coin there, and an
      entry that is not DIRTY agrees with the base. */
  ghost predicate Coherent(cache: Entries, base: Utxos) {
    forall o :: o in cache ==> EntryCoherent(cache[o], o, base)
  }

  ghost predicate EntryCoherent(e: Entry, o: OutPoint, base: Utxos) {
    && (e.isFresh ==> o !in base)
    && (!e.isDirty ==> if IsSpent(e.coin) then o !in base else o in base && base[o] == e.coin)
  }

  ghost predicate AllUnspent(u: Utxos) {
    forall o :: o in u ==> !IsSpent(u[o])
  }

  /** Writing a coin over a map of unspent coins. */
  ghost function Put(u: Utxos, o: OutPoint, c: Coin): Utxos {
    if IsSpent(c) then u - {o} else u[o := c]
  }

  // ---- Sums over finite maps ----

  ghost function Sum<K>(m: map<K, int>): int
    decreases |m|
  {
    if m == map[] then 0
    else
      var k :| k in m;
      assert (m - {k}).Keys == m.Keys - {k};
      m[k] + Sum(m - {k})
  }

  /** The sum does not depend on the order of summation. */
  lemma {:induction false} SumRemove<K>(m: map<K, int>, k: K)
    requires k in m
    ensures Sum(m) == m[k] + Sum(m - {k})
    decreases |m|
  {
    var j :| j in m && Sum(m) == m[j] + Sum(m - {j});
    if j != k {
      assert (m - {j}).Keys == m.Keys - {j} && (m - {k}).Keys == m.Keys - {k};
      SumRemove(m - {j}, k);
      SumRemove(m - {k}, j);
      assert m - {j} - {k} == m - {k} - {j};
    }
  }

  lemma SumUpdate<K>(m: map<K, int>, k: K, v: int)
    ensures Sum(m[k := v]) == Sum(m) + v - if k in m then m[k] else 0
  {
    SumRemove(m[k := v], k);
    if k in m {
      SumRemove(m, k);
      assert m[k := v] - {k} == m - {k};
    } else {
      assert m[k := v] - {k} == m;
    }
  }

  lemma SumErase<K>(m: map<K, int>, k: K)
    ensures Sum(m - {k}) == Sum(m) - if k in m then m[k] else 0
  {
    if k in m {
      SumRemove(m, k);
    } else {
      assert m - {k} == m;
    }
  }

  ghost function Usages(cache: Entries): map<OutPoint, int> {
    map o | o in cache :: DynamicUsage(cache[o].coin)
  }

  /** The memory the coins of a cache occupy. */
  ghost function UsageSum(cache: Entries): int {
    Sum(Usages(cache))
  }

  lemma UsageUpdate(cache: Entries, o: OutPoint, e: Entry)
    ensures UsageSum(cache[o := e])
         == UsageSum(cache) + DynamicUsage(e.coin) - if o in cache then DynamicUsage(cache[o].coin) else 0
  {
    assert Usages(cache[o := e]) == Usages(cache)[o := DynamicUsage(e.coin)];
    SumUpdate(Usages(cache), o, DynamicUsage(e.coin));
  }

  lemma UsageErase(cache: Entries, o: OutPoint)
    ensures UsageSum(cache - {o}) == UsageSum(cache) - if o in cache then DynamicUsage(cache[o].coin) else 0
  {
    assert Usages(cache - {o}) == Usages(cache) - {o};
    SumErase(Usages(cache), o);
  }

  // ---- The effect of one entry on the visible map ----

  /** Setting the entry of an outpoint puts its coin on the map ... */
  lemma VisibleUpdate(cache: Entries, base: Utxos, o: OutPoint, e: Entry)
    ensures Visible(cache[o := e], base) == Put(Visible(cache, base), o, e.coin)
  {
  }

  /** ... erasing it shows the base again. */
  lemma VisibleErase(cache: Entries, base: Utxos, o: OutPoint)
    ensures Visible(cache - {o}, base)
         == if o in base then Visible(cache, base)[o := base[o]] else Visible(cache, base) - {o}
  {
  }

  /** What AddCoin writes for an entry, given whether the caller rules an overwrite
      out: FRESH is added when the previous entry was not DIRTY. */
  function AddedEntry(previous: Entry, coin: Coin, possibleOverwrite: bool): Entry {
    Entry(coin, true, previous.isFresh || (!possibleOverwrite && !previous.isDirty))
  }

  /** Without the overwrite flag, an uncached outpoint that the base still holds
      unspent makes AddCoin mark a FRESH entry wrongly; in every other case the
      flags stay coherent. The condition can be read off before the call. */
  lemma AddCoinCoherence(cache: Entries, base: Utxos, o: OutPoint, coin: Coin, possibleOverwrite: bool)
    requires Coherent(cache, base) && !IsSpent(coin)
    requires !possibleOverwrite && o in cache ==> IsSpent(cache[o].coin)
    ensures var previous := if o in cache then cache[o] else Entry(NULL_COIN, false, false);
            Coherent(cache[o := AddedEntry(previous, coin, possibleOverwrite)], base)
            <==> possibleOverwrite || o in cache || o !in base
  {
    var previous := if o in cache then cache[o] else Entry(NULL_COIN, false, false);
    var e := AddedEntry(previous, coin, possibleOverwrite);
    var after := cache[o := e];
    assert forall p :: p in after ==> p == o || (p in cache && after[p] == cache[p]);
    assert after[o] == e;
    if o in cache {
      assert EntryCoherent(cache[o], o, base);
    }
  }

  /** What BatchWrite makes of a parent's entries when a child's dirty entry is
      written to it. */
  function Merged(ours: Entries, o: OutPoint, e: Entry): Entries {
    if o !in ours then
      if e.isFresh && IsSpent(e.coin) then ours else ours[o := Entry(e.coin, true, e.isFresh)]
    else if ours[o].isFresh && IsSpent(e.coin) then ours - {o}
    else ours[o := Entry(e.coin, true, ours[o].isFresh)]
  }

  /** A merge writes exactly the child's coin and keeps the parent's flags coherent;
      the misapplied-FRESH throw of the source cannot happen. */
  lemma MergeWrites(ours: Entries, base: Utxos, o: OutPoint, e: Entry)
    requires Coherent(ours, base) && (e.isFresh ==> o !in Visible(ours, base))
    ensures e.isFresh && o in ours ==> IsSpent(ours[o].coin)
    ensures Coherent(Merged(ours, o, e), base)
    ensures Visible(Merged(ours, o, e), base) == Put(Visible(ours, base), o, e.coin)
  {
    MergedFlags(ours, base, o, e);
    if o in ours && ours[o].isFresh && IsSpent(e.coin) {
      VisibleErase(ours, base, o);
    } else if o in ours {
      VisibleUpdate(ours, base, o, Entry(e.coin, true, ours[o].isFresh));
    } else {
      VisibleUpdate(ours, base, o, Entry(e.coin, true, e.isFresh));
    }
  }

  lemma MergedFlags(ours: Entries, base: Utxos, o: OutPoint, e: Entry)
    requires Coherent(ours, base) && (e.isFresh ==> o !in Visible(ours, base))
    ensures Coherent(Merged(ours, o, e), base)
    ensures o in ours && ours[o].isFresh ==> o !in base
  {
    var after := Merged(ours, o, e);
    assert forall p :: p in after ==> p == o || (p in ours && after[p] == ours[p]);
    if o in ours {
      assert EntryCoherent(ours[o], o, base);
    }
  }

  lemma CoherentAt(cache: Entries, base: Utxos, o: OutPoint)
    requires Coherent(cache, base) && o in cache
    ensures cache[o].isFresh ==> o !in base
  {
    assert EntryCoherent(cache[o], o, base);
  }

  /** The dirty entries among a set of keys. */
  ghost function DirtyIn(m: Entries, keys: set<OutPoint>): Entries {
    map o | o in m && o in keys && m[o].isDirty :: m[o]
  }

  lemma DirtyInNothing(m: Entries, base: Utxos)
    ensures Visible(DirtyIn(m, m.Keys - m.Keys), base) == base
  {
  }

  lemma DirtyInGrows(m: Entries, keys: set<OutPoint>, o: OutPoint, base: Utxos)
    requires o in m
    ensures Visible(DirtyIn(m, keys + {o}), base)
         == if m[o].isDirty then Put(Visible(DirtyIn(m, keys), base), o, m[o].coin) else Visible(DirtyIn(m, keys), base)
  {
    if m[o].isDirty {
      assert DirtyIn(m, keys + {o}) == DirtyIn(m, keys)[o := m[o]];
    } else {
      assert DirtyIn(m, keys + {o}) == DirtyIn(m, keys);
    }
  }

  /** Keys not written yet still show the base. */
  lemma UnwrittenAt(m: Entries, keys: set<OutPoint>, base: Utxos, o: OutPoint)
    requires o !in keys
    ensures o in Visible(DirtyIn(m, keys), base) <==> o in base
  {
  }

  /** Flushing: once the dirty entries of a coherent cache are written to its base,
      the base shows what the cache showed, and the clean rest still agrees. */
  lemma FlushedBase(cache: Entries, base: Utxos)
    requires Coherent(cache, base)
    ensures Visible(DirtyIn(cache, cache.Keys), base) == Visible(cache, base)
  {
    forall o | o in cache && !cache[o].isDirty
      ensures EntryCoherent(cache[o], o, base)
    {
    }
  }

  /** Cached entries that agree with a new base and whose flags are clear of dirt
      neither hide nor add anything. */
  ghost predicate Agrees(cache: Entries, base: Utxos) {
    forall o :: o in cache ==>
      !cache[o].isDirty && EntryCoherent(cache[o], o, base)
  }

  lemma AgreesShowsBase(cache: Entries, base: Utxos)
    requires Agrees(cache, base)
    ensures Visible(cache, base) == base && Coherent(cache, base)
  {
  }

  lemma VisibleAt(cache: Entries, base: Utxos, o: OutPoint)
    ensures o in cache ==> (o in Visible(cache, base) <==> !IsSpent(cache[o].coin))
    ensures o in cache && o in Visible(cache, base) ==> Visible(cache, base)[o] == cache[o].coin
    ensures o !in cache ==> (o in Visible(cache, base) <==> o in base)
  {
  }

  /** Filling the cache with what the base holds changes nothing anyone can see. */
  lemma FetchNeutral(cache: Entries, base: Utxos, o: OutPoint, c: Coin)
    requires Coherent(cache, base) && o !in cache
    requires if IsSpent(c) then o !in base else o in base && base[o] == c
    ensures var e := Entry(c, false, IsSpent(c));
            Coherent(cache[o := e], base) && Visible(cache[o := e], base) == Visible(cache, base)
  {
    var after := cache[o := Entry(c, false, IsSpent(c))];
    assert forall p :: p in after ==> p == o || (p in cache && after[p] == cache[p]);
  }

  /** Dropping an entry with no flags shows the same coin from the base. */
  lemma UncacheNeutral(cache: Entries, base: Utxos, o: OutPoint)
    requires Coherent(cache, base)
    requires o in cache && !cache[o].isDirty && !cache[o].isFresh
    ensures Coherent(cache - {o}, base) && Visible(cache - {o}, base) == Visible(cache, base)
  {
    assert EntryCoherent(cache[o], o, base);
    VisibleErase(cache, base, o);
    assert forall p :: p in cache - {o} ==> p in cache && (cache - {o})[p] == cache[p];
  }

  /** Spending: a FRESH entry is erased, any other becomes a dirty null coin. */
  function Spent(cache: Entries, o: OutPoint): Entries
    requires o in cache
  {
    if cache[o].isFresh then cache - {o} else cache[o := Entry(NULL_COIN, true, false)]
  }

  lemma SpendRemoves(cache: Entries, base: Utxos, o: OutPoint)
    requires Coherent(cache, base) && o in cache
    ensures Coherent(Spent(cache, o), base)
    ensures Visible(Spent(cache, o), base) == Visible(cache, base) - {o}
  {
    assert EntryCoherent(cache[o], o, base);
    VisibleErase(cache, base, o);
    VisibleUpdate(cache, base, o, Entry(NULL_COIN, true, false));
    var after := Spent(cache, o);
    assert forall p :: p in after ==> p == o || (p in cache && after[p] == cache[p]);
  }
}
