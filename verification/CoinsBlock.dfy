/** The coins of a whole block, connected to a stack of caches and taken back again. A block
    may spend its own outputs: all outputs are added before the first input is spent, and all
    inputs are restored before the first output is removed. */
module CoinsBlock {
  import opened Coins
  import opened CoinsCache
  import opened CoinsTx
  import opened Finite

  ghost predicate WellFormedBlock(block: seq<Tx>) {
    forall tx :: tx in block ==> tx.WellFormed()
  }

  /** A block over a map: first a coinbase, then transactions that each spend an outpoint
      once, and outputs that are all new. */
  ghost predicate Fits(u: Utxos, block: seq<Tx>) {
    && WellFormedBlock(block) && block != [] && block[0].IsCoinBase()
    && (forall i :: 0 <= i < |block| ==> Distinct(block[i].inputs) && Distinct(block[i].outpoints))
    && (forall i, o :: 0 <= i < |block| && o in block[i].outpoints ==> o !in u)
    && (forall i, j, o :: 0 <= i < j < |block| && o in block[i].outpoints ==> o !in block[j].outpoints)
  }

  // ---- Reference semantics on the flat map ----

  /** The coins the first n transactions create. */
  ghost function NewCoins(block: seq<Tx>, n: nat, height: nat): Utxos
    requires WellFormedBlock(block) && n <= |block|
  {
    if n == 0 then map[] else NewCoins(block, n - 1, height) + CreatedBy(block[n - 1], height)
  }

  /** Their outpoints. */
  ghost function Outpoints(block: seq<Tx>, n: nat): set<OutPoint>
    requires WellFormedBlock(block) && n <= |block|
  {
    if n == 0 then {} else Outpoints(block, n - 1) + SpendableOutpoints(block[n - 1], |block[n - 1].outputs|)
  }

  /** The outpoints the first n transactions spend. */
  ghost function Spends(block: seq<Tx>, n: nat): set<OutPoint>
    requires n <= |block|
  {
    if n == 0 then {} else Spends(block, n - 1) + KeySet(block[n - 1].inputs)
  }

  /** Every input is on the map and spent once. */
  ghost predicate AllAvailable(w: Utxos, block: seq<Tx>, n: nat)
    requires n <= |block|
  {
    forall i, o :: 0 <= i < n && o in block[i].inputs ==> o in w && o !in Spends(block, i)
  }

  ghost predicate UndosFor(w: Utxos, block: seq<Tx>, undos: seq<seq<Coin>>) {
    |undos| + 1 == |block| && forall i :: 0 <= i < |undos| ==> UndoFor(w, block[i + 1].inputs, undos[i])
  }

  /** All transactions but the first taken back, up to the n-th, in order. */
  ghost function Restored(w: Utxos, block: seq<Tx>, undos: seq<seq<Coin>>, n: nat): (DisconnectResult, Utxos)
    requires 1 <= n <= |block| == |undos| + 1
  {
    if n == 1 then (Ok, w)
    else
      var (r, v) := Restored(w, block, undos, n - 1);
      if r.Failed? then (r, v)
      else if |undos[n - 2]| != |block[n - 1].inputs| then (Failed, v)
      else
        var (s, x) := PutBackAll(v, Backwards(block[n - 1].inputs, undos[n - 2], 0));
        (Both(r, s), x)
  }

  /** Every output of the first n transactions is found as the block says. */
  ghost predicate AllThere(w: Utxos, block: seq<Tx>, n: nat)
    requires WellFormedBlock(block) && n <= |block|
  {
    forall i :: 0 <= i < n ==> OutputsThere(w - Outpoints(block, i), block[i], |block[i].outputs|)
  }

  // ---- The two directions ----

  lemma {:induction false} OutpointsAre(block: seq<Tx>, n: nat)
    requires WellFormedBlock(block) && n <= |block|
    ensures forall o :: o in Outpoints(block, n) ==> exists i :: 0 <= i < n && o in block[i].outpoints
  {
    if n > 0 {
      OutpointsAre(block, n - 1);
      hide Outpoints, SpendableOutpoints;
      SpendableAre(block[n - 1], |block[n - 1].outputs|);
    }
  }

  lemma SpendableAre(tx: Tx, n: nat)
    requires tx.WellFormed() && n <= |tx.outputs|
    ensures forall o :: o in SpendableOutpoints(tx, n) ==> o in tx.outpoints
  {
  }

  /** The outputs of a transaction are new after those of all earlier ones. */
  lemma StillNew(u: Utxos, block: seq<Tx>, i: nat, height: nat)
    requires Fits(u, block) && i < |block|
    ensures block[i].WellFormed() && Distinct(block[i].outpoints)
    ensures forall o :: o in block[i].outpoints ==> o !in u + NewCoins(block, i, height)
    ensures u + NewCoins(block, i, height) + CreatedBy(block[i], height) == u + NewCoins(block, i + 1, height)
  {
    hide Outpoints, CreatedBy, Distinct;
    NewKeys(block, i, height);
    OutpointsAre(block, i);
  }

  lemma {:induction false} NewKeys(block: seq<Tx>, n: nat, height: nat)
    requires WellFormedBlock(block) && n <= |block|
    ensures NewCoins(block, n, height).Keys == Outpoints(block, n)
  {
    if n > 0 {
      NewKeys(block, n - 1, height);
      CreatedAt(block[n - 1], |block[n - 1].outputs|, height);
    }
  }

  lemma BlockFits(u: Utxos, block: seq<Tx>, height: nat)
    requires Fits(u, block)
    ensures WellFormedBlock(block) && u + NewCoins(block, 0, height) == u
  {
  }

  /** The first loop: the outputs of every transaction. */
  method AddOutputs(block: seq<Tx>, cache: Cache, nHeight: nat)
    requires cache.Valid() && Fits(cache.View(), block)
    modifies cache
    ensures cache.Valid() && cache.BaseViews() == old(cache.BaseViews())
    ensures cache.View() == old(cache.View()) + NewCoins(block, |block|, nHeight)
    ensures forall i :: 0 <= i < |block| ==> OutputsStored(cache.View(), block[i], {}, nHeight)
  {
    hide Visible, Coherent, UsageSum, Cache.BaseViews, Cache.BaseValid, Cache.LayerValid, CreatedBy, Fits,
         Distinct, NewCoins;
    ghost var u := cache.View();
    BlockFits(u, block, nHeight);
    for i := 0 to |block|
      invariant cache.Valid() && cache.BaseViews() == old(cache.BaseViews())
      invariant cache.View() == u + NewCoins(block, i, nHeight)
    {
      StillNew(u, block, i, nHeight);
      AddCoins(cache, block[i], nHeight);
    }
    BlockStored(u, block, {}, nHeight);
  }

  method InputsThere(tx: Tx, cache: Cache) returns (there: bool)
    requires cache.Valid()
    modifies cache.Repr
    ensures cache.Valid() && cache.Views() == old(cache.Views())
    ensures there <==> forall o :: o in tx.inputs ==> o in cache.View()
  {
    hide Visible, Coherent, UsageSum, Cache.BaseViews, Cache.BaseValid, Cache.LayerValid;
    for j := 0 to |tx.inputs|
      invariant cache.Valid() && cache.Views() == old(cache.Views())
      invariant forall k :: 0 <= k < j ==> tx.inputs[k] in cache.View()
    {
      cache.ViewsSplit();
      var have := cache.HaveCoin(tx.inputs[j]);
      cache.ViewsSplit();
      if !have {
        return false;
      }
    }
    return true;
  }

  lemma NoneSpent(w: Utxos, block: seq<Tx>)
    ensures w - Spends(block, 0) == w && AllAvailable(w, block, 0)
  {
  }

  lemma NextSpent(w: Utxos, block: seq<Tx>, i: nat)
    requires i < |block| && AllAvailable(w, block, i)
    ensures (w - Spends(block, i)) - KeySet(block[i].inputs) == w - Spends(block, i + 1)
    ensures AllAvailable(w, block, i + 1) <==> forall o :: o in block[i].inputs ==> o in w - Spends(block, i)
    ensures !AllAvailable(w, block, i + 1) ==> !AllAvailable(w, block, |block|)
  {
  }

  /** Connecting a block: it is refused if and only if an input is missing or spent twice; else
      the map gains every spendable output, loses every input, and the undo data records the
      spent coins, those created by the block itself included. */
  method ConnectBlock(block: seq<Tx>, cache: Cache, nHeight: nat) returns (undos: Option<seq<seq<Coin>>>)
    requires cache.Valid() && Fits(cache.View(), block)
    modifies cache.Repr
    ensures cache.Valid() && cache.BaseViews() == old(cache.BaseViews())
    ensures var w := old(cache.View()) + NewCoins(block, |block|, nHeight);
            && (undos.Some? <==> AllAvailable(w, block, |block|))
            && (undos.Some? ==> cache.View() == w - Spends(block, |block|) && UndosFor(w, block, undos.value))
    ensures undos.Some? ==>
              forall i :: 0 <= i < |block| ==> OutputsStored(cache.View(), block[i], Spends(block, |block|), nHeight)
  {
    hide Visible, Coherent, UsageSum, Cache.BaseViews, Cache.BaseValid, Cache.LayerValid, NewCoins,
         UndoRecord, UndoFor, Spends, AllAvailable;
    cache.ViewsSplit();
    ghost var w := cache.View() + NewCoins(block, |block|, nHeight);
    AddOutputs(block, cache, nHeight);
    var records: seq<seq<Coin>> := [];
    NoneSpent(w, block);
    for i := 0 to |block|
      invariant cache.Valid() && cache.BaseViews() == old(cache.BaseViews())
      invariant cache.View() == w - Spends(block, i) && AllAvailable(w, block, i)
      invariant |records| == (if i == 0 then 0 else i - 1)
      invariant forall k :: 0 <= k < |records| ==> UndoFor(w, block[k + 1].inputs, records[k])
    {
      cache.ViewsSplit();
      var there := InputsThere(block[i], cache);
      cache.ViewsSplit();
      NextSpent(w, block, i);
      if !there {
        return None;
      }
      var undo := SpendCoins(block[i], cache);
      RecordsFor(w, w - Spends(block, i), block[i].inputs, undo);
      if i > 0 {
        records := records + [undo];
      }
    }
    BlockStored(old(cache.View()), block, Spends(block, |block|), nHeight);
    return Some(records);
  }

  lemma RecordsFor(w: Utxos, v: Utxos, inputs: seq<OutPoint>, undo: seq<Coin>)
    requires Distinct(inputs) && |undo| == |inputs|
    requires forall o :: o in inputs ==> o in v && o in w && v[o] == w[o]
    requires forall j :: 0 <= j < |undo| ==> UndoRecord(v, inputs, j, undo[j])
    ensures UndoFor(w, inputs, undo)
  {
    forall j | 0 <= j < |undo|
      ensures inputs[j] in w && undo[j] == w[inputs[j]]
    {
      assert UndoRecord(v, inputs, j, undo[j]);
    }
  }

  /** Disconnecting a block with its undo data. */
  method DisconnectBlock(block: seq<Tx>, undos: seq<seq<Coin>>, cache: Cache) returns (r: DisconnectResult)
    requires cache.Valid() && WellFormedBlock(block)
    requires forall undo, c :: undo in undos && c in undo ==> !IsSpent(c)
    modifies cache.Repr
    ensures cache.Valid() && cache.BaseViews() == old(cache.BaseViews())
    ensures |undos| + 1 != |block| ==> r.Failed? && cache.View() == old(cache.View())
    ensures |undos| + 1 == |block| ==>
              var (s, v) := Restored(old(cache.View()), block, undos, |block|);
              if s.Failed? then r.Failed? && cache.View() == v
              else cache.View() == v - Outpoints(block, |block|)
                   && r == if AllThere(v, block, |block|) then s else Unclean
  {
    hide Visible, Coherent, UsageSum, Cache.BaseViews, Cache.BaseValid, Cache.LayerValid, Restored, Outpoints, AllThere;
    if |undos| + 1 != |block| {
      return Failed;
    }
    r := RestoreAllInputs(block, undos, cache);
    if !r.Failed? {
      var fClean := RemoveAllOutputs(block, cache);
      r := if fClean then r else Unclean;
    }
  }

  /** Its first loop: the inputs of every transaction but the coinbase. */
  method RestoreAllInputs(block: seq<Tx>, undos: seq<seq<Coin>>, cache: Cache) returns (r: DisconnectResult)
    requires cache.Valid() && |undos| + 1 == |block|
    requires forall undo, c :: undo in undos && c in undo ==> !IsSpent(c)
    modifies cache.Repr
    ensures cache.Valid() && cache.BaseViews() == old(cache.BaseViews())
    ensures (r, cache.View()) == Restored(old(cache.View()), block, undos, |block|)
  {
    hide Visible, Coherent, UsageSum, Cache.BaseViews, Cache.BaseValid, Cache.LayerValid, PutBackAll, Backwards;
    ghost var w := cache.View();
    r := Ok;
    for i := 1 to |block|
      invariant cache.Valid() && cache.BaseViews() == old(cache.BaseViews())
      invariant !r.Failed? && (r, cache.View()) == Restored(w, block, undos, i)
    {
      var s := RestoreInputs(block[i], undos[i - 1], cache);
      FailureStays(w, block, undos, i + 1, |block|);
      if s.Failed? {
        return Failed;
      }
      r := Both(r, s);
    }
  }

  /** Its second loop: the outputs of every transaction. */
  method RemoveAllOutputs(block: seq<Tx>, cache: Cache) returns (fClean: bool)
    requires cache.Valid() && WellFormedBlock(block)
    modifies cache.Repr
    ensures cache.Valid() && cache.BaseViews() == old(cache.BaseViews())
    ensures cache.View() == old(cache.View()) - Outpoints(block, |block|)
    ensures fClean <==> AllThere(old(cache.View()), block, |block|)
  {
    hide Visible, Coherent, UsageSum, Cache.BaseViews, Cache.BaseValid, Cache.LayerValid, SpendableOutpoints,
         OutputsThere, Outpoints, AllThere;
    ghost var v := cache.View();
    fClean := true;
    NoneRemoved(v, block);
    for i := 0 to |block|
      invariant cache.Valid() && cache.BaseViews() == old(cache.BaseViews())
      invariant cache.View() == v - Outpoints(block, i)
      invariant fClean <==> AllThere(v, block, i)
    {
      NextRemoved(v, block, i);
      var clean := RemoveOutputs(block[i], cache);
      fClean := fClean && clean;
    }
  }

  lemma NoneRemoved(v: Utxos, block: seq<Tx>)
    requires WellFormedBlock(block)
    ensures v - Outpoints(block, 0) == v && AllThere(v, block, 0)
  {
  }

  lemma NextRemoved(v: Utxos, block: seq<Tx>, i: nat)
    requires WellFormedBlock(block) && i < |block|
    ensures block[i].WellFormed()
    ensures v - Outpoints(block, i) - SpendableOutpoints(block[i], |block[i].outputs|) == v - Outpoints(block, i + 1)
    ensures AllThere(v, block, i + 1) <==>
              AllThere(v, block, i) && OutputsThere(v - Outpoints(block, i), block[i], |block[i].outputs|)
  {
    hide SpendableOutpoints, OutputsThere;
  }

  lemma {:induction false} FailureStays(w: Utxos, block: seq<Tx>, undos: seq<seq<Coin>>, i: nat, n: nat)
    requires 1 <= i <= n <= |block| == |undos| + 1
    ensures Restored(w, block, undos, i).0.Failed? ==> Restored(w, block, undos, n) == Restored(w, block, undos, i)
  {
    hide PutBackAll, Backwards;
    if i < n {
      FailureStays(w, block, undos, i, n - 1);
    }
  }

  // ---- The round trip ----

  lemma {:induction false} SpendsGrow(block: seq<Tx>, i: nat, n: nat)
    requires i <= n <= |block|
    ensures Spends(block, i) <= Spends(block, n)
  {
    if i < n {
      SpendsGrow(block, i, n - 1);
    }
  }

  ghost predicate AllHaveHeight(w: Utxos, keys: set<OutPoint>) {
    forall o :: o in keys && o in w ==> HasHeight(w[o])
  }

  /** One more transaction taken back. */
  lemma NextRestored(w: Utxos, block: seq<Tx>, undo: seq<Coin>, i: nat)
    requires i < |block| && AllAvailable(w, block, |block|)
    requires Distinct(block[i].inputs) && UndoFor(w, block[i].inputs, undo)
    ensures AllHaveHeight(w, Spends(block, i + 1)) ==> AllHaveHeight(w, Spends(block, i))
    ensures AllHaveHeight(w, Spends(block, i)) ==>
              var gone := w - Spends(block, |block|);
              var (r, v) := PutBackAll(gone + Spendable(w, Spends(block, i)), Backwards(block[i].inputs, undo, 0));
              if AllHaveHeight(w, Spends(block, i + 1)) then r.Ok? && v == gone + Spendable(w, Spends(block, i + 1))
              else r.Failed?
  {
    hide PutBackAll, Backwards, UndoFor, Distinct, HasHeight;
    var gone, inputs, spent := w - Spends(block, |block|), block[i].inputs, Spends(block, i);
    var v := gone + Spendable(w, spent);
    SpendsGrow(block, i + 1, |block|);
    assert Spends(block, i + 1) == spent + KeySet(inputs);
    assert forall o :: o in inputs ==> o in KeySet(inputs) && o in w && o !in v;
    hide Spends, AllAvailable, Spendable;
    InputsRestored(v, w, inputs, undo);
    SpendableJoin(gone, w, spent, KeySet(inputs));
  }

  lemma SpendableJoin(gone: Utxos, w: Utxos, a: set<OutPoint>, b: set<OutPoint>)
    ensures gone + Spendable(w, a) + Spendable(w, b) == gone + Spendable(w, a + b)
  {
  }

  /** Every spent coin comes back, if and only if all of them were recorded with a height. */
  lemma {:induction false} RestoredAll(w: Utxos, block: seq<Tx>, undos: seq<seq<Coin>>, n: nat)
    requires 1 <= n <= |block| && block[0].IsCoinBase() && UndosFor(w, block, undos)
    requires AllAvailable(w, block, |block|) && forall i :: 0 <= i < |block| ==> Distinct(block[i].inputs)
    ensures var gone := w - Spends(block, |block|);
            var (r, v) := Restored(gone, block, undos, n);
            if AllHaveHeight(w, Spends(block, n)) then r.Ok? && v == gone + Spendable(w, Spends(block, n))
            else r.Failed?
  {
    hide PutBackAll, Backwards, UndoFor, AllAvailable, Distinct, AllHaveHeight, Spendable, Spends;
    if n == 1 {
      NothingSpent(w, block, w - Spends(block, |block|));
    } else {
      RestoredAll(w, block, undos, n - 1);
      UndoSize(w, block[n - 1].inputs, undos[n - 2]);
      NextRestored(w, block, undos[n - 2], n - 1);
    }
  }

  lemma NothingSpent(w: Utxos, block: seq<Tx>, gone: Utxos)
    requires block != [] && block[0].IsCoinBase()
    ensures AllHaveHeight(w, Spends(block, 1)) && gone + Spendable(w, Spends(block, 1)) == gone
  {
    assert Spends(block, 1) == {};
  }

  lemma UndoSize(w: Utxos, inputs: seq<OutPoint>, undo: seq<Coin>)
    requires UndoFor(w, inputs, undo)
    ensures |undo| == |inputs|
  {
  }

  /** What was created is found again, unless it is not on the map. */
  lemma {:induction false} NewCoinsAt(block: seq<Tx>, u: Utxos, n: nat, i: nat, height: nat)
    requires Fits(u, block) && i < n <= |block|
    ensures forall o :: o in CreatedBy(block[i], height) ==>
              o in NewCoins(block, n, height) && NewCoins(block, n, height)[o] == CreatedBy(block[i], height)[o]
  {
    hide CreatedBy;
    if i < n - 1 {
      NewCoinsAt(block, u, n - 1, i, height);
      CreatedFrom(block[i], height);
      CreatedFrom(block[n - 1], height);
    }
  }

  /** Every spendable output of a block that it does not spend itself is stored with its height
      and its coinbase flag. */
  lemma BlockStored(u: Utxos, block: seq<Tx>, gone: set<OutPoint>, height: nat)
    requires Fits(u, block)
    ensures var v := u + NewCoins(block, |block|, height) - gone;
            forall i :: 0 <= i < |block| ==> block[i].WellFormed() && OutputsStored(v, block[i], gone, height)
  {
    hide NewCoins, CreatedBy, Distinct;
    forall i | 0 <= i < |block|
      ensures block[i].WellFormed()
      ensures OutputsStored(u + NewCoins(block, |block|, height) - gone, block[i], gone, height)
    {
      NewCoinsAt(block, u, |block|, i, height);
      CreatedFrom(block[i], height);
      CreatedStored(map[], block[i], height);
    }
  }

  lemma CreatedFrom(tx: Tx, height: nat)
    requires tx.WellFormed()
    ensures CreatedBy(tx, height).Keys == SpendableOutpoints(tx, |tx.outputs|)
    ensures forall o :: o in CreatedBy(tx, height) ==> o in tx.outpoints
    ensures Distinct(tx.outpoints) ==>
              forall i :: 0 <= i < |tx.outputs| && !IsUnspendable(tx.outputs[i].script) ==>
                tx.outpoints[i] in CreatedBy(tx, height) && tx.outpoints[i] !in SpendableOutpoints(tx, i)
                && CreatedBy(tx, height)[tx.outpoints[i]] == CoinOf(tx.outputs[i], height, tx.IsCoinBase())
  {
    CreatedAt(tx, |tx.outputs|, height);
    forall i | 0 <= i < |tx.outputs|
      ensures Distinct(tx.outpoints) ==> tx.outpoints[i] !in SpendableOutpoints(tx, i)
    {
      NextOutput(tx, i);
    }
  }

  /** The coins a block creates are spendable. */
  lemma {:induction false} NewSpendable(block: seq<Tx>, n: nat, height: nat)
    requires WellFormedBlock(block) && n <= |block|
    ensures forall o :: o in NewCoins(block, n, height) ==> !IsUnspendable(NewCoins(block, n, height)[o].script)
  {
    if n > 0 {
      NewSpendable(block, n - 1, height);
      CreatedSpendable(block[n - 1], |block[n - 1].outputs|, height);
    }
  }

  lemma {:induction false} CreatedSpendable(tx: Tx, n: nat, height: nat)
    requires tx.WellFormed() && n <= |tx.outputs|
    ensures forall o :: o in Created(tx, n, height) ==> !IsUnspendable(Created(tx, n, height)[o].script)
  {
    if n > 0 {
      CreatedSpendable(tx, n - 1, height);
    }
  }

  /** With the inputs back, every output is there as it was added. */
  lemma OutputsBack(u: Utxos, block: seq<Tx>, height: nat, v: Utxos, i: nat)
    requires Fits(u, block) && i < |block|
    requires forall o :: o in NewCoins(block, |block|, height) ==> o in v && v[o] == NewCoins(block, |block|, height)[o]
    ensures OutputsThere(v - Outpoints(block, i), block[i], |block[i].outputs|)
  {
    hide NewCoins, CreatedBy, Outpoints, SpendableOutpoints, IsUnspendable;
    var tx := block[i];
    NewCoinsAt(block, u, |block|, i, height);
    CreatedFrom(tx, height);
    OutpointsAre(block, i);
    forall k | 0 <= k < |tx.outputs| && !IsUnspendable(tx.outputs[k].script)
      ensures OutputThere(v - Outpoints(block, i), tx, k)
    {
      assert tx.outpoints[k] in tx.outpoints;
    }
  }

  /** The algebra of the round trip. */
  lemma BlockRestores(u: Utxos, block: seq<Tx>, height: nat)
    requires Fits(u, block)
    ensures var w := u + NewCoins(block, |block|, height);
            var spent := Spends(block, |block|);
            var v := (w - spent) + Spendable(w, spent);
            v - Outpoints(block, |block|) == u - Lost(u, spent) && AllThere(v, block, |block|)
  {
    hide NewCoins, Spends, Outpoints, OutputsThere, IsUnspendable;
    var n := |block|;
    var added, spent := NewCoins(block, n, height), Spends(block, n);
    var w := u + added;
    var v := (w - spent) + Spendable(w, spent);
    NewKeys(block, n, height);
    NewSpendable(block, n, height);
    OutpointsAre(block, n);
    MapAlgebra(u, added, spent);
    forall i | 0 <= i < n
      ensures OutputsThere(v - Outpoints(block, i), block[i], |block[i].outputs|)
    {
      OutputsBack(u, block, height, v, i);
    }
  }

  lemma MapAlgebra(u: Utxos, added: Utxos, spent: set<OutPoint>)
    requires forall o :: o in added ==> o !in u && !IsUnspendable(added[o].script)
    ensures var w := u + added;
            var v := (w - spent) + Spendable(w, spent);
            && v - added.Keys == u - Lost(u, spent)
            && forall o :: o in added ==> o in v && v[o] == added[o]
  {
    hide IsUnspendable;
  }

  /** Connecting any block that is accepted and disconnecting it again: if every spent coin
      had a height, the result is clean and every level of the stack is as it was, but for
      unspendable coins among the inputs; otherwise it fails. */
  method ConnectAndDisconnectBlock(block: seq<Tx>, cache: Cache, nHeight: nat) returns (r: Option<DisconnectResult>)
    requires cache.Valid() && Fits(cache.View(), block)
    modifies cache.Repr
    ensures cache.Valid() && cache.BaseViews() == old(cache.BaseViews())
    ensures var u, spent := old(cache.View()), Spends(block, |block|);
            var w := u + NewCoins(block, |block|, nHeight);
            && (r.Some? <==> AllAvailable(w, block, |block|))
            && (r.Some? ==> if AllHaveHeight(w, spent) then r.value.Ok? && cache.View() == u - Lost(u, spent)
                            else r.value.Failed?)
  {
    hide Visible, Coherent, UsageSum, Cache.BaseViews, Cache.BaseValid, Cache.LayerValid, NewCoins, Spends,
         Outpoints, AllThere, Restored, AllAvailable, UndosFor, Spendable, Lost, AllHaveHeight;
    ghost var u, w := cache.View(), cache.View() + NewCoins(block, |block|, nHeight);
    cache.ViewsUnspent();
    var undos := ConnectBlock(block, cache, nHeight);
    if undos.None? {
      return None;
    }
    UndosUnspent(u, block, undos.value, nHeight);
    RestoredAll(w, block, undos.value, |block|);
    var result := DisconnectBlock(block, undos.value, cache);
    BlockRestores(u, block, nHeight);
    return Some(result);
  }

  lemma {:induction false} NewUnspent(block: seq<Tx>, n: nat, height: nat)
    requires WellFormedBlock(block) && n <= |block|
    ensures AllUnspent(NewCoins(block, n, height))
  {
    if n > 0 {
      NewUnspent(block, n - 1, height);
      CreatedUnspent(block[n - 1], |block[n - 1].outputs|, height);
    }
  }

  lemma {:induction false} CreatedUnspent(tx: Tx, n: nat, height: nat)
    requires tx.WellFormed() && n <= |tx.outputs|
    ensures AllUnspent(Created(tx, n, height))
  {
    if n > 0 {
      CreatedUnspent(tx, n - 1, height);
    }
  }

  lemma UndosUnspent(u: Utxos, block: seq<Tx>, undos: seq<seq<Coin>>, height: nat)
    requires AllUnspent(u) && WellFormedBlock(block) && UndosFor(u + NewCoins(block, |block|, height), block, undos)
    ensures |undos| + 1 == |block| && forall undo, c :: undo in undos && c in undo ==> !IsSpent(c)
  {
    hide NewCoins;
    NewUnspent(block, |block|, height);
    forall undo, c | undo in undos && c in undo
      ensures !IsSpent(c)
    {
      var i :| 0 <= i < |undos| && undos[i] == undo;
      assert UndoFor(u + NewCoins(block, |block|, height), block[i + 1].inputs, undo);
    }
  }
}
