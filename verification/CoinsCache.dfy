/** The stack of write-back coin caches over a coin database. */
module CoinsCache {
  import opened Coins

  datatype Option<T> = None | Some(value: T)

  /** What is left of a child's entries, and of its usage counter, after its dirty
      entries were written to its base: every entry that stays agrees with the base. */
  ghost predicate Drained(before: Entries, usageBefore: int, after: Entries, usageAfter: int, newBase: Utxos) {
    && after.Keys <= before.Keys
    && (forall o :: o in after ==> after[o].coin == before[o].coin)
    && Agrees(after, newBase)
    && usageAfter - UsageSum(after) == usageBefore - UsageSum(before)
  }

  /** The bottom of every stack: a persistent map of unspent coins. */
  class CoinsDB {
    var coins: Utxos
    var bestBlock: nat

    ghost predicate Valid()
      reads this
    {
      AllUnspent(coins)
    }

    constructor (coins: Utxos)
      requires AllUnspent(coins)
      ensures Valid() && this.coins == coins
    {
      this.coins, bestBlock := coins, 0;
    }

    method GetCoin(o: OutPoint) returns (r: Option<Coin>)
      ensures r == if o in coins then Some(coins[o]) else None
    {
      r := if o in coins then Some(coins[o]) else None;
    }

    /** Writes a child's dirty entries. Unspent ones may stay in the child as clean
        copies, depending on how far the node has synchronised. */
    method BatchWrite(mapCoins: Entries, hashBlock: nat, usage: int, keepUnspent: bool)
      returns (rest: Entries, usageRest: int)
      requires Valid() && Coherent(mapCoins, coins)
      modifies this
      ensures Valid() && coins == Visible(mapCoins, old(coins))
      ensures Drained(mapCoins, usage, rest, usageRest, coins)
      ensures bestBlock == if hashBlock == 0 then old(bestBlock) else hashBlock
    {
      ghost var base := coins;
      hide Visible, UsageSum, Coherent, PartlyDrained, Written;
      NothingDrained(mapCoins);
      NothingWritten(coins, mapCoins);
      var todo := mapCoins.Keys;
      rest, usageRest := mapCoins, usage;
      while todo != {}
        invariant PartlyDrained(mapCoins, todo, rest) && todo <= mapCoins.Keys
        invariant Written(coins, mapCoins, todo, base)
        invariant usageRest - UsageSum(rest) == usage - UsageSum(mapCoins)
        invariant bestBlock == old(bestBlock)
        decreases todo
      {
        var o :| o in todo;
        DrainStep(mapCoins, todo, rest, o);
        WrittenStep(coins, mapCoins, todo, o, base);
        var e := rest[o];
        todo := todo - {o};
        if e.isDirty {
          UsageErase(rest, o);
          UsageUpdate(rest, o, Entry(e.coin, false, false));
          if IsSpent(e.coin) {
            coins := coins - {o};
            usageRest := usageRest - DynamicUsage(e.coin);
            rest := rest - {o};
          } else {
            coins := coins[o := e.coin];
            if !keepUnspent {
              usageRest := usageRest - DynamicUsage(e.coin);
              rest := rest - {o};
            } else {
              rest := rest[o := Entry(e.coin, false, false)];
            }
          }
        }
      }
      if hashBlock != 0 {
        bestBlock := hashBlock;
      }
      WrittenAll(coins, mapCoins, base);
      KeptAgrees(mapCoins, rest, base);
    }
  }

  /** An entry a flush leaves behind: untouched if it was clean, else a clean
      unspent copy of what was written. */
  ghost predicate KeptClean(after: Entry, before: Entry) {
    if before.isDirty then !IsSpent(before.coin) && after == Entry(before.coin, false, false) else after == before
  }

  /** A child's entries while its base works through them. */
  ghost predicate PartlyDrained(m: Entries, todo: set<OutPoint>, rest: Entries) {
    && rest.Keys <= m.Keys && todo <= rest.Keys
    && forall o :: o in rest ==> if o in todo then rest[o] == m[o] else KeptClean(rest[o], m[o])
  }

  /** Working through one entry: erase it, leave a clean unspent copy, or, if it
      was clean, leave it alone. */
  lemma DrainStep(m: Entries, todo: set<OutPoint>, rest: Entries, o: OutPoint)
    requires PartlyDrained(m, todo, rest) && o in todo
    ensures o in rest && rest[o] == m[o]
    ensures PartlyDrained(m, todo - {o}, rest - {o})
    ensures !IsSpent(m[o].coin) && m[o].isDirty ==>
              PartlyDrained(m, todo - {o}, rest[o := Entry(m[o].coin, false, false)])
    ensures !m[o].isDirty ==> PartlyDrained(m, todo - {o}, rest)
  {
  }

  /** A parent's entries while it works through a child's: it shows its old view
      with the entries handled so far written over it. */
  ghost predicate Absorbed(ours: Entries, below: Utxos, m: Entries, todo: set<OutPoint>, view: Utxos) {
    Coherent(ours, below) && Visible(ours, below) == Visible(DirtyIn(m, m.Keys - todo), view)
  }

  lemma NothingDrained(m: Entries)
    ensures PartlyDrained(m, m.Keys, m)
  {
  }

  lemma NothingAbsorbed(ours: Entries, below: Utxos, m: Entries)
    requires Coherent(ours, below)
    ensures Absorbed(ours, below, m, m.Keys, Visible(ours, below))
  {
    DirtyInNothing(m, Visible(ours, below));
  }

  lemma NothingWritten(coins: Utxos, m: Entries)
    requires AllUnspent(coins)
    ensures Written(coins, m, m.Keys, coins)
  {
    DirtyInNothing(m, coins);
  }

  lemma AbsorbStep(ours: Entries, below: Utxos, m: Entries, todo: set<OutPoint>, o: OutPoint, view: Utxos)
    requires Absorbed(ours, below, m, todo, view) && Coherent(m, view) && o in todo && todo <= m.Keys
    ensures Coherent(ours, below) && (m[o].isFresh ==> o !in Visible(ours, below))
    ensures if m[o].isDirty then Absorbed(Merged(ours, o, m[o]), below, m, todo - {o}, view)
            else Absorbed(ours, below, m, todo - {o}, view)
  {
    WriteStep(m, todo, o, view);
    UnwrittenAt(m, m.Keys - todo, view, o);
    CoherentAt(m, view, o);
    MergeWrites(ours, below, o, m[o]);
  }

  lemma AbsorbedAll(ours: Entries, below: Utxos, m: Entries, view: Utxos)
    requires Absorbed(ours, below, m, {}, view) && Coherent(m, view)
    ensures Coherent(ours, below) && Visible(ours, below) == Visible(m, view)
  {
    assert m.Keys - {} == m.Keys;
    FlushedBase(m, view);
  }

  /** The database while it works through a child's entries. */
  ghost predicate Written(coins: Utxos, m: Entries, todo: set<OutPoint>, base: Utxos) {
    AllUnspent(coins) && coins == Visible(DirtyIn(m, m.Keys - todo), base)
  }

  lemma WrittenStep(coins: Utxos, m: Entries, todo: set<OutPoint>, o: OutPoint, base: Utxos)
    requires Written(coins, m, todo, base) && o in todo && todo <= m.Keys
    ensures Written(if m[o].isDirty then Put(coins, o, m[o].coin) else coins, m, todo - {o}, base)
  {
    WriteStep(m, todo, o, base);
  }

  lemma WrittenAll(coins: Utxos, m: Entries, base: Utxos)
    requires Written(coins, m, {}, base) && Coherent(m, base)
    ensures AllUnspent(coins) && coins == Visible(m, base)
  {
    assert m.Keys - {} == m.Keys;
    FlushedBase(m, base);
  }

  lemma WriteStep(m: Entries, todo: set<OutPoint>, o: OutPoint, base: Utxos)
    requires o in todo && todo <= m.Keys
    ensures Visible(DirtyIn(m, m.Keys - (todo - {o})), base)
         == if m[o].isDirty then Put(Visible(DirtyIn(m, m.Keys - todo), base), o, m[o].coin)
            else Visible(DirtyIn(m, m.Keys - todo), base)
  {
    DirtyInGrows(m, m.Keys - todo, o, base);
    assert m.Keys - (todo - {o}) == m.Keys - todo + {o};
  }

  lemma KeptAgrees(before: Entries, after: Entries, base: Utxos)
    requires Coherent(before, base) && PartlyDrained(before, {}, after)
    ensures Agrees(after, Visible(before, base)) && after.Keys <= before.Keys
    ensures forall o :: o in after ==> after[o].coin == before[o].coin
  {
    forall o | o in after
      ensures !after[o].isDirty && EntryCoherent(after[o], o, Visible(before, base))
    {
      assert EntryCoherent(before[o], o, base);
    }
  }

  /** A cache over a base view, which is another cache or, at the bottom, the
      database. */
  class Cache {
    const base: Cache?
    const db: CoinsDB
    ghost const depth: nat
    ghost const Repr: set<object>
    var cacheCoins: Entries
    var hashBlock: nat
    var nBestCoinHeight: nat
    var cachedCoinsUsage: int

    /** A finite stack without sharing. */
    ghost predicate Shape()
      decreases depth
    {
      && this !in Below() && Repr == {this} + Below()
      && (base != null ==> base.depth < depth && base.Shape())
    }

    /** The objects of the levels below this one. */
    ghost function Below(): set<object> {
      if base == null then {db} else base.Repr
    }

    /** The unspent coins seen at every level below this cache ... */
    ghost function BaseViews(): (v: seq<Utxos>)
      requires Shape()
      reads Below()
      ensures |v| >= 1
      decreases depth, 0
    {
      if base == null then [db.coins] else base.Views()
    }

    /** ... and with its own in front. */
    ghost function Views(): (v: seq<Utxos>)
      requires Shape()
      reads Repr
      ensures |v| >= 2
      decreases depth, 1
    {
      [Visible(cacheCoins, BaseViews()[0])] + BaseViews()
    }

    ghost function View(): Utxos
      requires Shape()
      reads Repr
    {
      Visible(cacheCoins, BaseViews()[0])
    }

    lemma ViewsSplit()
      requires Shape()
      ensures this in Repr && Views()[0] == View() && Views()[1..] == BaseViews()
    {
    }

    /** The last cache of a stack is the one right over the database. */
    lemma Bottom()
      requires Valid()
      ensures base == null <==> |Views()| == 2
      ensures base != null ==> base.Valid() && base.Views() == BaseViews() && base.Repr <= Repr
    {
    }

    ghost predicate BaseValid()
      requires Shape()
      reads Below()
      decreases depth, 0
    {
      if base == null then db.Valid() else base.Valid()
    }

    /** The flags are coherent with the base, the usage counter is the exact sum over
        the entries and the best height bounds every cached coin ... */
    ghost predicate LayerValid(below: Utxos)
      reads this
    {
      && Coherent(cacheCoins, below)
      && cachedCoinsUsage == UsageSum(cacheCoins)
      && HeightsWithin(cacheCoins, nBestCoinHeight)
    }

    /** ... at every level of the stack. */
    ghost predicate Valid()
      reads Repr
      decreases depth, 1
    {
      Shape() && LayerValid(BaseViews()[0]) && BaseValid()
    }

    /** Views hold unspent coins only. */
    lemma ViewsUnspent()
      requires Valid()
      ensures AllUnspent(BaseViews()[0]) && AllUnspent(View())
      decreases depth
    {
      if base != null {
        base.ViewsUnspent();
        base.ViewsSplit();
      }
    }

    constructor OverDatabase(db: CoinsDB)
      requires db.Valid()
      ensures Valid() && Views() == [db.coins, db.coins] && fresh(Repr - {db})
    {
      this.base, this.db, depth := null, db, 0;
      cacheCoins, hashBlock, nBestCoinHeight, cachedCoinsUsage := map[], 0, 0, 0;
      Repr := {this, db};
      new;
      EmptyCache(db.coins);
    }

    constructor OverCache(base: Cache)
      requires base.Valid()
      ensures Valid() && Views() == [base.View()] + base.Views() && fresh(Repr - base.Repr)
    {
      this.base, this.db, depth := base, base.db, base.depth + 1;
      cacheCoins, hashBlock, nBestCoinHeight, cachedCoinsUsage := map[], 0, 0, 0;
      Repr := {this} + base.Repr;
      new;
      EmptyCache(base.View());
    }

    /** Asking the base, which may fill its own caches on the way. */
    method GetBaseCoin(o: OutPoint) returns (r: Option<Coin>)
      requires Shape() && BaseValid()
      modifies Below()
      ensures BaseValid() && BaseViews() == old(BaseViews())
      ensures o in BaseViews()[0] ==> r == Some(BaseViews()[0][o]) && !IsSpent(r.value)
      ensures o !in BaseViews()[0] ==> r.None? || IsSpent(r.value)
      decreases depth, 0
    {
      if base == null {
        r := db.GetCoin(o);
      } else {
        r := base.GetCoin(o);
      }
    }

    /** FetchCoin: makes sure an outpoint the base knows is cached, marking it FRESH
        if the base only has it spent. No level's view changes. */
    method FetchCoin(o: OutPoint) returns (found: bool)
      requires Valid()
      modifies Repr
      ensures Valid() && Views() == old(Views())
      ensures View() == old(View()) && BaseViews() == old(BaseViews()) && hashBlock == old(hashBlock)
      ensures found <==> o in cacheCoins
      ensures o in View() ==> found
      ensures o in old(cacheCoins) ==> cacheCoins == old(cacheCoins)
      decreases depth, 1
    {
      hide Visible, Coherent, UsageSum, BaseViews, BaseValid;
      VisibleAt(cacheCoins, BaseViews()[0], o);
      found := o in cacheCoins;
      if !found {
        var tmp := GetBaseCoin(o);
        if tmp.Some? {
          found := true;
          var e := Entry(tmp.value, false, IsSpent(tmp.value));
          FetchNeutral(cacheCoins, BaseViews()[0], o, e.coin);
          UsageUpdate(cacheCoins, o, e);
          SetEntry(o, e);
        }
      }
    }

    /** Stores an entry and accounts for its coin, as every writer does. */
    method SetEntry(o: OutPoint, e: Entry)
      modifies this`cacheCoins, this`cachedCoinsUsage, this`nBestCoinHeight
      ensures cacheCoins == old(cacheCoins)[o := e]
      ensures cachedCoinsUsage == old(cachedCoinsUsage) + DynamicUsage(e.coin)
      ensures nBestCoinHeight >= old(nBestCoinHeight) && nBestCoinHeight >= e.coin.height
      ensures nBestCoinHeight == old(nBestCoinHeight) || nBestCoinHeight == e.coin.height
    {
      cacheCoins := cacheCoins[o := e];
      cachedCoinsUsage := cachedCoinsUsage + DynamicUsage(e.coin);
      if nBestCoinHeight < e.coin.height {
        nBestCoinHeight := e.coin.height;
      }
    }

    /** GetCoin: the coin the view holds, if any. An outpoint the view does not hold
        may still be answered with a spent coin. */
    method GetCoin(o: OutPoint) returns (r: Option<Coin>)
      requires Valid()
      modifies Repr
      ensures Valid() && Views() == old(Views())
      ensures o in View() ==> r == Some(View()[o]) && !IsSpent(r.value)
      ensures o !in View() ==> r.None? || IsSpent(r.value)
      decreases depth, 2
    {
      hide Visible, Coherent, UsageSum, BaseViews, BaseValid;
      var found := FetchCoin(o);
      VisibleAt(cacheCoins, BaseViews()[0], o);
      r := if found then Some(cacheCoins[o].coin) else None;
    }

    /** HaveCoin: whether the view holds an unspent coin. */
    method HaveCoin(o: OutPoint) returns (have: bool)
      requires Valid()
      modifies Repr
      ensures Valid() && Views() == old(Views())
      ensures have <==> o in View()
    {
      hide Visible, Coherent, UsageSum, BaseViews, BaseValid;
      var found := FetchCoin(o);
      VisibleAt(cacheCoins, BaseViews()[0], o);
      have := found && !IsSpent(cacheCoins[o].coin);
    }

    /** AddCoin: puts an unspent coin on the view, unless its script is unspendable.
        Without the overwrite flag the caller rules out an uncached coin in the base
        (see AddCoinCoherence); a cached unspent coin makes it throw, after the old
        coin has already been taken off the usage counter. */
    method AddCoin(o: OutPoint, coin: Coin, possibleOverwrite: bool) returns (thrown: bool)
      requires Valid() && !IsSpent(coin)
      requires possibleOverwrite || IsUnspendable(coin.script) || o in cacheCoins || o !in BaseViews()[0]
      modifies this
      ensures Shape() && BaseViews() == old(BaseViews())
      ensures thrown <==> !IsUnspendable(coin.script) && !possibleOverwrite
                          && o in old(cacheCoins) && !IsSpent(old(cacheCoins)[o].coin)
      ensures thrown ==> cacheCoins == old(cacheCoins)
                         && cachedCoinsUsage == old(cachedCoinsUsage) - DynamicUsage(old(cacheCoins)[o].coin)
      ensures !thrown ==> Valid()
      ensures View() == if thrown || IsUnspendable(coin.script) then old(View()) else old(View())[o := coin]
      ensures !thrown ==>
        View() == if (|coin.script| > 0 && coin.script[0] == 0x6a) || |coin.script| > 10000 then old(View())
                  else old(View())[o := coin]
      ensures var wasFresh := o in old(cacheCoins) && old(cacheCoins)[o].isFresh;
              var wasDirty := o in old(cacheCoins) && old(cacheCoins)[o].isDirty;
              !thrown && !IsUnspendable(coin.script) ==>
                cacheCoins == old(cacheCoins)[o := Entry(coin, true, wasFresh || (!possibleOverwrite && !wasDirty))]
      ensures hashBlock == old(hashBlock)
    {
      hide Visible, Coherent, UsageSum, BaseViews, BaseValid;
      if IsUnspendable(coin.script) {
        return false;
      }
      var previous := if o in cacheCoins then cacheCoins[o] else Entry(NULL_COIN, false, false);
      if o in cacheCoins {
        cachedCoinsUsage := cachedCoinsUsage - DynamicUsage(previous.coin);
      }
      if !possibleOverwrite && !IsSpent(previous.coin) {
        return true;
      }
      var e := AddedEntry(previous, coin, possibleOverwrite);
      AddCoinCoherence(cacheCoins, BaseViews()[0], o, coin, possibleOverwrite);
      VisibleUpdate(cacheCoins, BaseViews()[0], o, e);
      UsageUpdate(cacheCoins, o, e);
      SetEntry(o, e);
      return false;
    }

    /** SpendCoin: removes an outpoint from the view and hands its coin out. */
    method SpendCoin(o: OutPoint) returns (moveout: Option<Coin>)
      requires Valid()
      modifies Repr
      ensures Valid() && BaseViews() == old(BaseViews())
      ensures View() == old(View()) - {o}
      ensures o in old(View()) ==> moveout == Some(old(View())[o])
      ensures o !in old(View()) ==> moveout.None? || IsSpent(moveout.value)
      ensures o in old(cacheCoins) ==>
        cacheCoins == if old(cacheCoins)[o].isFresh then old(cacheCoins) - {o}
                      else old(cacheCoins)[o := Entry(NULL_COIN, true, false)]
      ensures hashBlock == old(hashBlock)
    {
      hide Visible, Coherent, UsageSum, BaseViews, BaseValid;
      var found := FetchCoin(o);
      VisibleAt(cacheCoins, BaseViews()[0], o);
      if !found {
        return None;
      }
      var e := cacheCoins[o];
      SpendRemoves(cacheCoins, BaseViews()[0], o);
      UsageErase(cacheCoins, o);
      UsageUpdate(cacheCoins, o, Entry(NULL_COIN, true, false));
      cachedCoinsUsage := cachedCoinsUsage - DynamicUsage(e.coin);
      if e.isFresh {
        cacheCoins := cacheCoins - {o};
      } else {
        cacheCoins := cacheCoins[o := Entry(NULL_COIN, true, e.isFresh)];
      }
      return Some(e.coin);
    }

    /** Uncache: drops an unmodified entry; the view stays. */
    method Uncache(o: OutPoint)
      requires Valid()
      modifies this
      ensures Valid() && Views() == old(Views())
      ensures if o in old(cacheCoins) && !old(cacheCoins)[o].isDirty && !old(cacheCoins)[o].isFresh
              then cacheCoins == old(cacheCoins) - {o}
                   && cachedCoinsUsage == old(cachedCoinsUsage) - DynamicUsage(old(cacheCoins)[o].coin)
              else cacheCoins == old(cacheCoins) && cachedCoinsUsage == old(cachedCoinsUsage)
    {
      hide Visible, Coherent, UsageSum, BaseViews, BaseValid;
      if o in cacheCoins && !cacheCoins[o].isDirty && !cacheCoins[o].isFresh {
        UncacheNeutral(cacheCoins, BaseViews()[0], o);
        UsageErase(cacheCoins, o);
        cachedCoinsUsage := cachedCoinsUsage - DynamicUsage(cacheCoins[o].coin);
        cacheCoins := cacheCoins - {o};
      }
    }

    /** Trim: drops unmodified entries, in the order of the table, until the memory
        in use is within the bound or every entry has been looked at, and not one more:
        with the last entry dropped still there the bound was exceeded. */
    method Trim(nTrimSize: int, overhead: nat -> nat)
      requires Valid()
      modifies this
      ensures Valid() && Views() == old(Views())
      ensures Trimmed(old(cacheCoins), old(cachedCoinsUsage), cacheCoins, cachedCoinsUsage, overhead, nTrimSize)
      ensures overhead(|cacheCoins|) + cachedCoinsUsage <= nTrimSize
              || forall o :: o in cacheCoins ==> cacheCoins[o].isDirty || cacheCoins[o].isFresh
    {
      hide Visible, Coherent, UsageSum, BaseViews, BaseValid, Trimmed;
      NothingTrimmed(cacheCoins, cachedCoinsUsage, overhead, nTrimSize);
      var todo := cacheCoins.Keys;
      while overhead(|cacheCoins|) + cachedCoinsUsage > nTrimSize && todo != {}
        invariant Valid() && Views() == old(Views()) && todo <= cacheCoins.Keys
        invariant Trimmed(old(cacheCoins), old(cachedCoinsUsage), cacheCoins, cachedCoinsUsage, overhead, nTrimSize)
        invariant forall o :: o in cacheCoins && o !in todo ==> cacheCoins[o].isDirty || cacheCoins[o].isFresh
        decreases todo
      {
        var o :| o in todo;
        todo := todo - {o};
        TrimStep(old(cacheCoins), old(cachedCoinsUsage), cacheCoins, cachedCoinsUsage, o, overhead, nTrimSize);
        Uncache(o);
      }
    }

    /** One dirty entry of a child arriving at this cache. The throw of the source,
        for a FRESH entry over an unspent one, is unreachable. */
    method MergeEntry(o: OutPoint, e: Entry, ghost below: Utxos)
      requires Coherent(cacheCoins, below) && (e.isFresh ==> o !in Visible(cacheCoins, below))
      modifies this`cacheCoins, this`cachedCoinsUsage
      ensures cacheCoins == Merged(old(cacheCoins), o, e)
      ensures cachedCoinsUsage - UsageSum(cacheCoins) == old(cachedCoinsUsage - UsageSum(cacheCoins))
    {
      MergeWrites(cacheCoins, below, o, e);
      UsageErase(cacheCoins, o);
      hide UsageSum, Visible, Coherent;
      if o !in cacheCoins {
        if !(e.isFresh && IsSpent(e.coin)) {
          UsageUpdate(cacheCoins, o, Entry(e.coin, true, e.isFresh));
          cacheCoins := cacheCoins[o := Entry(e.coin, true, e.isFresh)];
          cachedCoinsUsage := cachedCoinsUsage + DynamicUsage(e.coin);
        }
      } else {
        var us := cacheCoins[o];
        assert !(e.isFresh && !IsSpent(us.coin));
        if us.isFresh && IsSpent(e.coin) {
          cachedCoinsUsage := cachedCoinsUsage - DynamicUsage(us.coin);
          cacheCoins := cacheCoins - {o};
        } else {
          UsageUpdate(cacheCoins, o, Entry(e.coin, true, us.isFresh));
          cachedCoinsUsage := cachedCoinsUsage - DynamicUsage(us.coin);
          cacheCoins := cacheCoins[o := Entry(e.coin, true, us.isFresh)];
          cachedCoinsUsage := cachedCoinsUsage + DynamicUsage(e.coin);
        }
      }
    }

    /** The loop of BatchWrite: takes over every dirty entry of a child, in the order
        of the child's table, erasing it there. */
    method AbsorbEntries(mapCoins: Entries, usage: int, ghost below: Utxos, ghost top: nat)
      returns (rest: Entries, usageRest: int)
      requires Coherent(cacheCoins, below) && Coherent(mapCoins, Visible(cacheCoins, below))
      requires HeightsWithin(cacheCoins, top) && HeightsWithin(mapCoins, top)
      requires cachedCoinsUsage == UsageSum(cacheCoins)
      modifies this`cacheCoins, this`cachedCoinsUsage
      ensures Coherent(cacheCoins, below) && HeightsWithin(cacheCoins, top)
      ensures cachedCoinsUsage == UsageSum(cacheCoins)
      ensures Visible(cacheCoins, below) == Visible(mapCoins, old(Visible(cacheCoins, below)))
      ensures PartlyDrained(mapCoins, {}, rest)
      ensures usageRest - UsageSum(rest) == usage - UsageSum(mapCoins)
    {
      hide Visible, UsageSum, Coherent, HeightsWithin, Merged, PartlyDrained, Absorbed;
      ghost var view := Visible(cacheCoins, below);
      NothingDrained(mapCoins);
      NothingAbsorbed(cacheCoins, below, mapCoins);
      var todo := mapCoins.Keys;
      rest, usageRest := mapCoins, usage;
      while todo != {}
        invariant PartlyDrained(mapCoins, todo, rest) && todo <= mapCoins.Keys
        invariant Absorbed(cacheCoins, below, mapCoins, todo, view) && HeightsWithin(cacheCoins, top)
        invariant cachedCoinsUsage == UsageSum(cacheCoins)
        invariant usageRest - UsageSum(rest) == usage - UsageSum(mapCoins)
        decreases todo
      {
        var o :| o in todo;
        DrainStep(mapCoins, todo, rest, o);
        var e := rest[o];
        AbsorbStep(cacheCoins, below, mapCoins, todo, o, view);
        todo := todo - {o};
        if e.isDirty {
          usageRest := usageRest - DynamicUsage(e.coin);
          MergedHeights(cacheCoins, mapCoins, o, top);
          MergeEntry(o, e, below);
          UsageErase(rest, o);
          rest := rest - {o};
        }
      }
      AbsorbedAll(cacheCoins, below, mapCoins, view);
    }

    /** BatchWrite: this cache comes to show the child's view. */
    method BatchWrite(mapCoins: Entries, hashBlockIn: nat, nBestCoinHeightIn: nat, usage: int)
      returns (rest: Entries, usageRest: int)
      requires Valid() && Coherent(mapCoins, View()) && HeightsWithin(mapCoins, nBestCoinHeightIn)
      modifies this
      ensures Valid() && BaseViews() == old(BaseViews())
      ensures View() == Visible(mapCoins, old(View()))
      ensures Drained(mapCoins, usage, rest, usageRest, View())
      ensures hashBlock == hashBlockIn
    {
      ghost var top := if nBestCoinHeight < nBestCoinHeightIn then nBestCoinHeightIn else nBestCoinHeight;
      hide Visible, UsageSum, BaseViews, BaseValid, Coherent, HeightsWithin, PartlyDrained, Agrees;
      HeightsWeaken(cacheCoins, nBestCoinHeight, top);
      HeightsWeaken(mapCoins, nBestCoinHeightIn, top);
      ghost var view := View();
      rest, usageRest := AbsorbEntries(mapCoins, usage, BaseViews()[0], top);
      hashBlock := hashBlockIn;
      if nBestCoinHeightIn > nBestCoinHeight {
        nBestCoinHeight := nBestCoinHeightIn;
      }
      KeptAgrees(mapCoins, rest, view);
    }

    /** Flush: the base comes to show what this cache shows; this cache's own view
        and everything further down stay as they were. */
    method Flush(keepUnspent: bool)
      requires Valid()
      modifies Repr
      ensures Valid() && View() == old(View())
      ensures BaseViews() == [old(View())] + old(BaseViews())[1..]
    {
      hide Visible, UsageSum, BaseViews, BaseValid, Coherent, Agrees;
      var rest, usage := FlushBase(keepUnspent);
      AgreesShowsBase(rest, BaseViews()[0]);
      cacheCoins, cachedCoinsUsage := rest, usage;
    }

    /** The call to the base's BatchWrite. */
    method FlushBase(keepUnspent: bool) returns (rest: Entries, usage: int)
      requires Valid()
      modifies Below()
      ensures BaseValid() && BaseViews() == [old(View())] + old(BaseViews())[1..]
      ensures Drained(cacheCoins, cachedCoinsUsage, rest, usage, BaseViews()[0])
    {
      hide Visible, UsageSum;
      if base == null {
        rest, usage := db.BatchWrite(cacheCoins, hashBlock, cachedCoinsUsage, keepUnspent);
      } else {
        base.ViewsSplit();
        rest, usage := base.BatchWrite(cacheCoins, hashBlock, nBestCoinHeight, cachedCoinsUsage);
      }
    }
  }

  /** Only entries without flags are gone and nothing else changed. If any is gone, the memory
      in use was over the bound at first, and still was with the last one of them there. */
  ghost predicate Trimmed(
    before: Entries, usageBefore: int, after: Entries, usage: int, overhead: nat -> nat, bound: int)
  {
    && after.Keys <= before.Keys
    && (forall o :: o in after ==> after[o] == before[o])
    && (forall o :: o in before && o !in after ==> !before[o].isDirty && !before[o].isFresh)
    && if after == before then usage == usageBefore
       else overhead(|before|) + usageBefore > bound && LastOver(before, after, usage, overhead, bound)
  }

  ghost predicate LastOver(before: Entries, after: Entries, usage: int, overhead: nat -> nat, bound: int) {
    exists o :: o in before && o !in after && overhead(|after| + 1) + usage + DynamicUsage(before[o].coin) > bound
  }

  lemma NothingTrimmed(m: Entries, usage: int, overhead: nat -> nat, bound: int)
    ensures Trimmed(m, usage, m, usage, overhead, bound)
  {
  }

  lemma TrimStep(before: Entries, usageBefore: int, now: Entries, usage: int, o: OutPoint,
                 overhead: nat -> nat, bound: int)
    requires Trimmed(before, usageBefore, now, usage, overhead, bound) && overhead(|now|) + usage > bound && o in now
    ensures !now[o].isDirty && !now[o].isFresh ==>
              Trimmed(before, usageBefore, now - {o}, usage - DynamicUsage(now[o].coin), overhead, bound)
  {
    EraseOne(now, o);
    assert o in before && o !in now - {o};
  }

  lemma EraseOne(m: Entries, o: OutPoint)
    requires o in m
    ensures |m - {o}| + 1 == |m|
  {
    assert (m - {o}).Keys == m.Keys - {o};
    assert |m.Keys| == |m| && |(m - {o}).Keys| == |m - {o}|;
  }

  ghost predicate HeightsWithin(cache: Entries, h: nat) {
    forall o :: o in cache ==> cache[o].coin.height <= h
  }

  lemma HeightsWeaken(cache: Entries, h: nat, top: nat)
    requires HeightsWithin(cache, h) && h <= top
    ensures HeightsWithin(cache, top)
  {
  }

  lemma MergedHeights(ours: Entries, theirs: Entries, o: OutPoint, h: nat)
    requires HeightsWithin(ours, h) && HeightsWithin(theirs, h) && o in theirs
    ensures HeightsWithin(Merged(ours, o, theirs[o]), h)
  {
  }

  lemma EmptyCache(base: Utxos)
    ensures Visible(map[], base) == base && Coherent(map[], base) && UsageSum(map[]) == 0
  {
    assert Usages(map[]) == map[];
  }

  // ---- Whole runs ----

  /** An operation on a stack: on its top cache, or opening a new cache over it, or
      dropping it with whatever was not flushed. */
  datatype Op =
    | Fetch(o: OutPoint)
    | Add(o: OutPoint, coin: Coin, possibleOverwrite: bool)
    | Spend(o: OutPoint)
    | Uncache(o: OutPoint)
    | Trim(size: int)
    | Flush(keepUnspent: bool)
    | Push
    | Drop

  /** What an operation does to one flat map of unspent coins. */
  ghost function Effect(u: Utxos, op: Op): Utxos {
    match op
    case Add(o, coin, _) => if IsUnspendable(coin.script) then u else u[o := coin]
    case Spend(o) => u - {o}
    case _ => u
  }

  /** What it does to the flat maps of all levels, topmost first and the database last. */
  ghost function Step(views: seq<Utxos>, op: Op): (r: seq<Utxos>)
    requires |views| >= 2
    ensures |r| >= 2
  {
    match op
    case Push => [views[0]] + views
    case Drop => if |views| > 2 then views[1..] else views
    case Flush(_) => [views[0], views[0]] + views[2..]
    case _ => [Effect(views[0], op)] + views[1..]
  }

  /** The caller's side, on the flat maps alone: AddCoin's, and that the last cache over the
      database stays. */
  ghost predicate Allowed(views: seq<Utxos>, op: Op)
    requires |views| >= 2
  {
    && (op.Add? ==> !IsSpent(op.coin) && (op.possibleOverwrite || op.o !in views[0]))
    && (op.Drop? ==> |views| > 2)
  }

  ghost function Steps(views: seq<Utxos>, ops: seq<Op>): (r: seq<Utxos>)
    requires |views| >= 2
    ensures |r| >= 2
    decreases |ops|
  {
    if ops == [] then views else Steps(Step(views, ops[0]), ops[1..])
  }

  ghost predicate AllAllowed(views: seq<Utxos>, ops: seq<Op>)
    requires |views| >= 2
    decreases |ops|
  {
    ops != [] ==> Allowed(views, ops[0]) && AllAllowed(Step(views, ops[0]), ops[1..])
  }

  ghost function Effects(u: Utxos, ops: seq<Op>): Utxos
    decreases |ops|
  {
    if ops == [] then u else Effects(Effect(u, ops[0]), ops[1..])
  }

  /** Operations that leave every level but the top one alone. */
  ghost predicate OnTop(ops: seq<Op>) {
    forall op :: op in ops ==> !op.Flush? && !op.Push? && !op.Drop?
  }

  lemma {:induction false} StepsJoin(views: seq<Utxos>, first: seq<Op>, second: seq<Op>)
    requires |views| >= 2
    ensures Steps(views, first + second) == Steps(Steps(views, first), second)
    decreases |first|
  {
    hide Step;
    if first == [] {
      assert first + second == second;
    } else {
      assert (first + second)[1..] == first[1..] + second;
      StepsJoin(Step(views, first[0]), first[1..], second);
    }
  }

  /** On the top level alone, a stack is one flat map. */
  lemma {:induction false} OneLevel(views: seq<Utxos>, ops: seq<Op>)
    requires |views| >= 2 && OnTop(ops)
    ensures Steps(views, ops) == [Effects(views[0], ops)] + views[1..]
    decreases |ops|
  {
    hide Effect;
    if ops == [] {
      assert views == [views[0]] + views[1..];
    } else {
      OneLevel(Step(views, ops[0]), ops[1..]);
    }
  }

  /** Work in a cache of its own that is flushed is work done directly ... */
  lemma LayerCommits(views: seq<Utxos>, ops: seq<Op>, keepUnspent: bool)
    requires |views| >= 2 && OnTop(ops)
    ensures Steps(views, [Push] + ops + [Flush(keepUnspent), Drop]) == Steps(views, ops)
  {
    hide Effect, Steps;
    var open := [views[0]] + views;
    LayerOpens(views, ops, [Flush(keepUnspent), Drop]);
    OneLevel(open, ops);
    OneLevel(views, ops);
    LastTwo([Effects(views[0], ops)] + views, Flush(keepUnspent), Drop);
  }

  /** ... and work in a cache that is dropped never happened. */
  lemma LayerVanishes(views: seq<Utxos>, ops: seq<Op>)
    requires |views| >= 2 && OnTop(ops)
    ensures Steps(views, [Push] + ops + [Drop]) == views
  {
    hide Effect, Steps;
    LayerOpens(views, ops, [Drop]);
    OneLevel([views[0]] + views, ops);
    LastOne([Effects(views[0], ops)] + views, Drop);
  }

  lemma LayerOpens(views: seq<Utxos>, ops: seq<Op>, last: seq<Op>)
    requires |views| >= 2
    ensures Steps(views, [Push] + ops + last) == Steps(Steps([views[0]] + views, ops), last)
  {
    StepsJoin(views, [Push] + ops, last);
    assert ([Push] + ops)[1..] == ops;
  }

  lemma LastOne(views: seq<Utxos>, op: Op)
    requires |views| >= 2
    ensures Steps(views, [op]) == Step(views, op)
  {
    assert Steps(Step(views, op), []) == Step(views, op);
  }

  lemma LastTwo(views: seq<Utxos>, a: Op, b: Op)
    requires |views| >= 2
    ensures Steps(views, [a, b]) == Step(Step(views, a), b)
  {
    LastOne(Step(views, a), b);
    assert [a, b][1..] == [b];
  }

  /** One operation that leaves every level but the top one alone. */
  method PerformOnTop(cache: Cache, op: Op, overhead: nat -> nat)
    requires cache.Valid() && Allowed(cache.Views(), op) && OnTop([op])
    modifies cache.Repr
    ensures cache.Valid() && cache.View() == Effect(old(cache.View()), op)
    ensures cache.BaseViews() == old(cache.BaseViews())
  {
    hide Visible, Coherent, UsageSum, Cache.BaseViews, Cache.BaseValid, Cache.LayerValid;
    assert op in [op];
    cache.ViewsSplit();
    match op
    case Fetch(o) =>
      var found := cache.FetchCoin(o);
    case Add(o, coin, possibleOverwrite) =>
      VisibleAt(cache.cacheCoins, cache.BaseViews()[0], o);
      var thrown := cache.AddCoin(o, coin, possibleOverwrite);
    case Spend(o) =>
      var coin := cache.SpendCoin(o);
    case Uncache(o) =>
      cache.Uncache(o);
    case Trim(size) =>
      cache.Trim(size, overhead);
  }

  /** One operation on a stack; returns its top cache. */
  method Perform(cache: Cache, op: Op, overhead: nat -> nat) returns (top: Cache)
    requires cache.Valid() && Allowed(cache.Views(), op)
    modifies cache.Repr
    ensures fresh(top.Repr - cache.Repr) && top.Valid()
    ensures top.Views() == Step(old(cache.Views()), op)
  {
    hide Visible, Coherent, UsageSum, Cache.BaseViews, Cache.BaseValid, Cache.LayerValid, Effect;
    cache.ViewsSplit();
    cache.Bottom();
    top := cache;
    if op.Push? {
      top := new Cache.OverCache(cache);
    } else if op.Drop? {
      top := cache.base;
    } else if op.Flush? {
      cache.Flush(op.keepUnspent);
    } else {
      PerformOnTop(cache, op, overhead);
    }
  }

  /** Any run of operations on any stack, caches opened, flushed and dropped on the way, shows
      at every level what the same run does to a list of flat maps. */
  method Replay(cache: Cache, ops: seq<Op>, overhead: nat -> nat) returns (top: Cache)
    requires cache.Valid() && AllAllowed(cache.Views(), ops)
    modifies cache.Repr
    ensures fresh(top.Repr - cache.Repr) && top.Valid()
    ensures top.Views() == Steps(old(cache.Views()), ops)
  {
    hide Visible, Coherent, UsageSum, Cache.Views, Cache.BaseViews, Cache.BaseValid, Cache.LayerValid, Step, Allowed;
    top := cache;
    for i := 0 to |ops|
      invariant fresh(top.Repr - cache.Repr) && top.Valid()
      invariant |top.Views()| >= 2 && AllAllowed(top.Views(), ops[i..])
      invariant Steps(top.Views(), ops[i..]) == Steps(old(cache.Views()), ops)
    {
      assert ops[i..][0] == ops[i] && ops[i..][1..] == ops[i + 1..];
      top := Perform(top, ops[i], overhead);
    }
  }

  /** So does every run on a cache newly opened over a database. */
  method ReplayFrom(coins: Utxos, ops: seq<Op>, overhead: nat -> nat) returns (top: Cache)
    requires AllUnspent(coins) && AllAllowed([coins, coins], ops)
    ensures top.Valid() && top.Views() == Steps([coins, coins], ops)
  {
    hide Visible, Coherent, UsageSum, Steps, AllAllowed, Cache.BaseViews, Cache.BaseValid, Cache.LayerValid;
    var db := new CoinsDB(coins);
    var cache := new Cache.OverDatabase(db);
    top := Replay(cache, ops, overhead);
  }
}
