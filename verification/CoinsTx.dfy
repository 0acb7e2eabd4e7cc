/** Transactions applied to, and taken back from, a stack of coin caches. */
module CoinsTx {
  import opened Coins
  import opened CoinsCache
  import opened Finite

  datatype TxOut = TxOut(value: int, script: seq<nat>)

  /** A transaction, with the outpoint each output hashes to. */
  datatype Tx = Tx(inputs: seq<OutPoint>, outputs: seq<TxOut>, outpoints: seq<OutPoint>) {
    predicate IsCoinBase() {
      inputs == []
    }

    /** Outputs have outpoints and are not null. */
    ghost predicate WellFormed() {
      |outpoints| == |outputs| && forall i :: 0 <= i < |outputs| ==> outputs[i].value != -1
    }
  }

  function CoinOf(out: TxOut, height: nat, coinbase: bool): Coin {
    Coin(out.value, out.script, height, coinbase)
  }

  ghost function KeySet(s: seq<OutPoint>): set<OutPoint> {
    set o | o in s
  }

  // ---- Reference semantics on the flat map ----

  /** The coins the first n outputs create; unspendable ones create none. */
  ghost function Created(tx: Tx, n: nat, height: nat): Utxos
    requires tx.WellFormed() && n <= |tx.outputs|
  {
    if n == 0 then map[]
    else
      var before := Created(tx, n - 1, height);
      if IsUnspendable(tx.outputs[n - 1].script) then before
      else before[tx.outpoints[n - 1] := CoinOf(tx.outputs[n - 1], height, tx.IsCoinBase())]
  }

  ghost function CreatedBy(tx: Tx, height: nat): Utxos
    requires tx.WellFormed()
  {
    Created(tx, |tx.outputs|, height)
  }

  /** The inputs gone and the outputs there. */
  ghost function Connected(u: Utxos, tx: Tx, height: nat): Utxos
    requires tx.WellFormed()
  {
    (u - KeySet(tx.inputs)) + CreatedBy(tx, height)
  }

  /** The inputs of a transaction are distinct and available, and its spendable
      outputs are new. */
  ghost predicate Applies(u: Utxos, tx: Tx) {
    && tx.WellFormed()
    && Distinct(tx.inputs) && Distinct(tx.outpoints)
    && (forall o :: o in tx.inputs ==> o in u)
    && (forall o :: o in tx.outpoints ==> o !in u)
  }

  ghost function SpendableOutpoints(tx: Tx, n: nat): set<OutPoint>
    requires tx.WellFormed() && n <= |tx.outputs|
  {
    set i | 0 <= i < n && !IsUnspendable(tx.outputs[i].script) :: tx.outpoints[i]
  }

  /** Which outpoints the first n outputs create, and with what. */
  lemma {:induction false} CreatedAt(tx: Tx, n: nat, height: nat)
    requires tx.WellFormed() && n <= |tx.outputs|
    ensures Created(tx, n, height).Keys == SpendableOutpoints(tx, n)
    ensures Distinct(tx.outpoints) ==>
              forall i :: 0 <= i < n && !IsUnspendable(tx.outputs[i].script) ==>
                tx.outpoints[i] in Created(tx, n, height)
                && Created(tx, n, height)[tx.outpoints[i]] == CoinOf(tx.outputs[i], height, tx.IsCoinBase())
  {
    if n > 0 {
      CreatedAt(tx, n - 1, height);
      NextOutput(tx, n - 1);
    }
  }

  /** What every spendable output that is not gone again is stored as: its value and script
      with the height it was created at, marked as a coinbase exactly if its transaction has
      no inputs. */
  ghost predicate OutputsStored(u: Utxos, tx: Tx, gone: set<OutPoint>, height: nat)
    requires tx.WellFormed()
  {
    forall i :: 0 <= i < |tx.outputs| && !IsUnspendable(tx.outputs[i].script) && tx.outpoints[i] !in gone ==>
      && tx.outpoints[i] in u
      && u[tx.outpoints[i]] == Coin(tx.outputs[i].value, tx.outputs[i].script, height, tx.inputs == [])
  }

  lemma CreatedStored(u: Utxos, tx: Tx, height: nat)
    requires tx.WellFormed()
    ensures Distinct(tx.outpoints) ==> OutputsStored(u + CreatedBy(tx, height), tx, {}, height)
  {
    CreatedAt(tx, |tx.outputs|, height);
  }

  lemma NextOutput(tx: Tx, i: nat)
    requires tx.WellFormed() && i < |tx.outputs|
    ensures SpendableOutpoints(tx, i + 1)
         == SpendableOutpoints(tx, i) + if IsUnspendable(tx.outputs[i].script) then {} else {tx.outpoints[i]}
    ensures Distinct(tx.outpoints) ==> tx.outpoints[i] !in SpendableOutpoints(tx, i)
  {
  }

  /** AddCoins. Overwrites are allowed only for a coinbase. */
  method AddCoins(cache: Cache, tx: Tx, nHeight: nat)
    requires cache.Valid() && tx.WellFormed()
    requires !tx.IsCoinBase() ==>
               Distinct(tx.outpoints) && forall o :: o in tx.outpoints ==> o !in cache.View()
    modifies cache
    ensures cache.Valid() && cache.BaseViews() == old(cache.BaseViews())
    ensures cache.View() == old(cache.View()) + CreatedBy(tx, nHeight)
    ensures Distinct(tx.outpoints) ==> OutputsStored(cache.View(), tx, {}, nHeight)
  {
    hide Visible, Coherent, UsageSum, Cache.BaseViews, Cache.BaseValid, Cache.LayerValid, SpendableOutpoints;
    var fCoinbase := tx.IsCoinBase();
    ghost var u := cache.View();
    for i := 0 to |tx.outputs|
      invariant cache.Valid() && cache.BaseViews() == old(cache.BaseViews())
      invariant cache.View() == u + Created(tx, i, nHeight)
    {
      CreatedAt(tx, i, nHeight);
      NextOutput(tx, i);
      VisibleAt(cache.cacheCoins, cache.BaseViews()[0], tx.outpoints[i]);
      var coin := Coin(tx.outputs[i].value, tx.outputs[i].script, nHeight, fCoinbase);
      var thrown := cache.AddCoin(tx.outpoints[i], coin, fCoinbase);
    }
    CreatedStored(old(cache.View()), tx, nHeight);
  }

  /** The record SpendCoins leaves for an input: the coin, if it was still there. */
  ghost predicate UndoRecord(u: Utxos, inputs: seq<OutPoint>, j: nat, c: Coin)
    requires j < |inputs|
  {
    if inputs[j] in u && inputs[j] !in inputs[..j] then c == u[inputs[j]] else IsSpent(c)
  }

  lemma NoKeys(u: Utxos, s: seq<OutPoint>)
    ensures u - KeySet(s[..0]) == u
  {
  }

  lemma SpendRecord(u: Utxos, inputs: seq<OutPoint>, j: nat, view: Utxos, r: Option<Coin>)
    requires j < |inputs| && view == u - KeySet(inputs[..j])
    requires if inputs[j] in view then r == Some(view[inputs[j]]) else r.None? || IsSpent(r.value)
    ensures UndoRecord(u, inputs, j, if r.Some? then r.value else NULL_COIN)
    ensures view - {inputs[j]} == u - KeySet(inputs[..j + 1])
  {
    assert KeySet(inputs[..j + 1]) == KeySet(inputs[..j]) + {inputs[j]};
  }

  /** SpendCoins: removes the inputs and records the spent coins in order. */
  method SpendCoins(tx: Tx, cache: Cache) returns (undo: seq<Coin>)
    requires cache.Valid()
    modifies cache.Repr
    ensures cache.Valid() && cache.BaseViews() == old(cache.BaseViews())
    ensures cache.View() == old(cache.View()) - KeySet(tx.inputs)
    ensures |undo| == |tx.inputs|
    ensures forall j :: 0 <= j < |undo| ==> UndoRecord(old(cache.View()), tx.inputs, j, undo[j])
  {
    hide Visible, Coherent, UsageSum, Cache.BaseViews, Cache.BaseValid, Cache.LayerValid, KeySet, UndoRecord;
    ghost var u := cache.View();
    undo := [];
    NoKeys(u, tx.inputs);
    for j := 0 to |tx.inputs|
      invariant cache.Valid() && cache.BaseViews() == old(cache.BaseViews())
      invariant cache.View() == u - KeySet(tx.inputs[..j])
      invariant |undo| == j
      invariant forall k :: 0 <= k < j ==> UndoRecord(u, tx.inputs, k, undo[k])
    {
      ghost var view := cache.View();
      var moveout := cache.SpendCoin(tx.inputs[j]);
      SpendRecord(u, tx.inputs, j, view, moveout);
      undo := undo + [if moveout.Some? then moveout.value else NULL_COIN];
    }
    assert tx.inputs[..|tx.inputs|] == tx.inputs;
  }

  /** UpdateCoins: spends the inputs, then adds the outputs. */
  method UpdateCoins(tx: Tx, cache: Cache, nHeight: nat) returns (undo: seq<Coin>)
    requires cache.Valid() && tx.WellFormed()
    requires !tx.IsCoinBase() ==>
               Distinct(tx.outpoints) && forall o :: o in tx.outpoints ==> o !in cache.View() || o in tx.inputs
    modifies cache.Repr
    ensures cache.Valid() && cache.BaseViews() == old(cache.BaseViews())
    ensures cache.View() == Connected(old(cache.View()), tx, nHeight)
    ensures |undo| == |tx.inputs|
    ensures forall j :: 0 <= j < |undo| ==> UndoRecord(old(cache.View()), tx.inputs, j, undo[j])
    ensures Distinct(tx.outpoints) ==> OutputsStored(cache.View(), tx, {}, nHeight)
  {
    hide Visible, Coherent, UsageSum, Cache.BaseViews, Cache.BaseValid, Cache.LayerValid, UndoRecord, OutputsStored;
    undo := SpendCoins(tx, cache);
    cache.ViewsSplit();
    AddCoins(cache, tx, nHeight);
  }

  /** For distinct, available inputs the records are the spent coins in order. */
  lemma RecordsSpent(u: Utxos, tx: Tx, undo: seq<Coin>)
    requires Applies(u, tx) && |undo| == |tx.inputs|
    requires forall j :: 0 <= j < |undo| ==> UndoRecord(u, tx.inputs, j, undo[j])
    ensures UndoFor(u, tx.inputs, undo)
  {
    forall j | 0 <= j < |undo|
      ensures tx.inputs[j] in u && undo[j] == u[tx.inputs[j]]
    {
      assert UndoRecord(u, tx.inputs, j, undo[j]);
    }
  }

  // ---- Taking a transaction back ----

  datatype DisconnectResult = Ok | Unclean | Failed

  function Both(r: DisconnectResult, s: DisconnectResult): DisconnectResult {
    if r.Failed? || s.Failed? then Failed else if r.Unclean? || s.Unclean? then Unclean else Ok
  }

  /** Putting one recorded coin back on a flat map. A record without a height borrows its
      metadata from a coin that is still there, and fails if there is none; a coin that is
      still there is overwritten, which is unclean; an unspendable coin is not put back. */
  ghost function PutBack(w: Utxos, o: OutPoint, undo: Coin): (DisconnectResult, Utxos) {
    if undo.height == 0 && o !in w then (Failed, w)
    else
      var c := if undo.height == 0 then undo.(height := w[o].height, coinbase := w[o].coinbase) else undo;
      (if o in w then Unclean else Ok, if IsUnspendable(c.script) then w else w[o := c])
  }

  /** Putting several back, one after the other, up to the first failure. */
  ghost function PutBackAll(w: Utxos, records: seq<(OutPoint, Coin)>): (DisconnectResult, Utxos) {
    if records == [] then (Ok, w)
    else
      var n := |records| - 1;
      var (r, v) := PutBackAll(w, records[..n]);
      if r.Failed? then (r, v)
      else
        var (s, x) := PutBack(v, records[n].0, records[n].1);
        (Both(r, s), x)
  }

  /** ApplyTxInUndo: puts a recorded coin back on the view. */
  method ApplyTxInUndo(undo: Coin, cache: Cache, o: OutPoint) returns (r: DisconnectResult)
    requires cache.Valid() && !IsSpent(undo)
    modifies cache.Repr
    ensures cache.Valid() && cache.BaseViews() == old(cache.BaseViews())
    ensures (r, cache.View()) == PutBack(old(cache.View()), o, undo)
  {
    hide Visible, Coherent, UsageSum, Cache.BaseViews, Cache.BaseValid, Cache.LayerValid;
    var have := cache.HaveCoin(o);
    cache.ViewsSplit();
    var coin := undo;
    if undo.height == 0 {
      var alternate := cache.GetCoin(o);
      if alternate.None? || IsSpent(alternate.value) {
        return Failed;
      }
      coin := undo.(height := alternate.value.height, coinbase := alternate.value.coinbase);
    }
    VisibleAt(cache.cacheCoins, cache.BaseViews()[0], o);
    var thrown := cache.AddCoin(o, coin, have);
    return if have then Unclean else Ok;
  }

  /** The records of a transaction in the order they are used: last input first, down to j. */
  ghost function Backwards(inputs: seq<OutPoint>, undo: seq<Coin>, j: nat): seq<(OutPoint, Coin)>
    requires j <= |inputs| == |undo|
    decreases |inputs| - j
  {
    if j == |inputs| then [] else Backwards(inputs, undo, j + 1) + [(inputs[j], undo[j])]
  }

  /** The input loop of DisconnectBlock for one transaction, last input first. */
  method RestoreInputs(tx: Tx, undo: seq<Coin>, cache: Cache) returns (r: DisconnectResult)
    requires cache.Valid() && forall c :: c in undo ==> !IsSpent(c)
    modifies cache.Repr
    ensures cache.Valid() && cache.BaseViews() == old(cache.BaseViews())
    ensures (r, cache.View()) == if |undo| != |tx.inputs| then (Failed, old(cache.View()))
                                 else PutBackAll(old(cache.View()), Backwards(tx.inputs, undo, 0))
    ensures |undo| == |tx.inputs| && Distinct(tx.inputs) ==>
              InputsBack(r, old(cache.View()), cache.View(), tx.inputs, undo)
  {
    hide Visible, Coherent, UsageSum, Cache.BaseViews, Cache.BaseValid, Cache.LayerValid, PutBack;
    if |undo| != |tx.inputs| {
      return Failed;
    }
    ghost var w := cache.View();
    if Distinct(tx.inputs) {
      DistinctBack(w, tx.inputs, undo);
    }
    r := Ok;
    for j := |tx.inputs| downto 0
      invariant cache.Valid() && cache.BaseViews() == old(cache.BaseViews())
      invariant !r.Failed? && (r, cache.View()) == PutBackAll(w, Backwards(tx.inputs, undo, j))
    {
      ghost var records := Backwards(tx.inputs, undo, j + 1);
      var res := ApplyTxInUndo(undo[j], cache, tx.inputs[j]);
      PutBackNext(w, records, tx.inputs[j], undo[j]);
      FailsFrom(w, tx.inputs, undo, 0, j);
      if res.Failed? {
        return Failed;
      }
      r := Both(r, res);
    }
  }

  lemma PutBackNext(w: Utxos, records: seq<(OutPoint, Coin)>, o: OutPoint, c: Coin)
    ensures var (r, v) := PutBackAll(w, records);
            PutBackAll(w, records + [(o, c)]) ==
            if r.Failed? then (r, v) else (Both(r, PutBack(v, o, c).0), PutBack(v, o, c).1)
  {
    assert (records + [(o, c)])[..|records|] == records;
  }

  /** A failure ends the loop. */
  lemma {:induction false} FailsFrom(w: Utxos, inputs: seq<OutPoint>, undo: seq<Coin>, i: nat, j: nat)
    requires i <= j <= |inputs| == |undo|
    ensures PutBackAll(w, Backwards(inputs, undo, j)).0.Failed? ==>
              PutBackAll(w, Backwards(inputs, undo, i)) == PutBackAll(w, Backwards(inputs, undo, j))
    decreases j - i
  {
    hide PutBack;
    if i < j {
      FailsFrom(w, inputs, undo, i + 1, j);
      PutBackNext(w, Backwards(inputs, undo, i + 1), inputs[i], undo[i]);
    }
  }

  /** Records of coins that are all gone from the map, each once. */
  ghost predicate AllGone(w: Utxos, records: seq<(OutPoint, Coin)>) {
    && (forall i :: 0 <= i < |records| ==> records[i].0 !in w)
    && DifferentOutpoints(records)
  }

  ghost predicate HasHeight(c: Coin) {
    c.height > 0
  }

  /** The coins of some records, without unspendable ones. */
  ghost function CoinsOf(records: seq<(OutPoint, Coin)>): Utxos {
    if records == [] then map[]
    else
      var last := records[|records| - 1];
      var before := CoinsOf(records[..|records| - 1]);
      if IsUnspendable(last.1.script) then before else before[last.0 := last.1]
  }

  lemma PutBackOne(w: Utxos, o: OutPoint, c: Coin)
    requires o !in w
    ensures PutBack(w, o, c) == if HasHeight(c) then
            (Ok, if IsUnspendable(c.script) then w else w[o := c]) else (Failed, w)
  {
  }

  lemma {:induction false} CoinsOfKeys(records: seq<(OutPoint, Coin)>)
    ensures forall o :: o in CoinsOf(records) ==> exists i :: 0 <= i < |records| && records[i].0 == o
  {
    if records != [] {
      var n := |records| - 1;
      CoinsOfKeys(records[..n]);
      forall o | o in CoinsOf(records[..n])
        ensures exists i :: 0 <= i < |records| && records[i].0 == o
      {
        var i :| 0 <= i < n && records[..n][i].0 == o;
        assert records[i].0 == o;
      }
    }
  }

  lemma GoneLast(w: Utxos, records: seq<(OutPoint, Coin)>)
    requires AllGone(w, records) && records != []
    ensures var n := |records| - 1;
            AllGone(w, records[..n]) && records[n].0 !in w + CoinsOf(records[..n])
  {
    hide CoinsOf;
    CoinsOfKeys(records[..|records| - 1]);
  }

  /** Putting back coins that are gone succeeds if and only if every record has its height,
      and then restores every spendable one. */
  lemma {:induction false} PutBackGone(w: Utxos, records: seq<(OutPoint, Coin)>)
    requires AllGone(w, records)
    ensures if forall i :: 0 <= i < |records| ==> HasHeight(records[i].1)
            then PutBackAll(w, records) == (Ok, w + CoinsOf(records))
            else PutBackAll(w, records).0.Failed?
  {
    hide IsUnspendable, HasHeight, PutBack, AllGone;
    if records == [] {
      assert w + map[] == w;
    } else {
      var n := |records| - 1;
      GoneLast(w, records);
      PutBackGone(w, records[..n]);
      assert forall i :: 0 <= i < n ==> records[..n][i] == records[i];
      var before, o, c := CoinsOf(records[..n]), records[n].0, records[n].1;
      PutBackOne(w + before, o, c);
      assert w + before[o := c] == (w + before)[o := c];
    }
  }

  /** What putting a record back leaves at its outpoint: an unspendable coin changes nothing;
      any other is there, with its own height and coinbase flag or, if it has no height, with
      those of the coin it replaces. */
  ghost predicate Back(w: Utxos, v: Utxos, o: OutPoint, c: Coin) {
    if IsUnspendable(c.script) then (o in v <==> o in w) && (o in w ==> v[o] == w[o])
    else if c.height > 0 then o in v && v[o] == c
    else o in w && o in v && v[o] == Coin(c.value, c.script, w[o].height, w[o].coinbase)
  }

  ghost predicate Stands(records: seq<(OutPoint, Coin)>, w: Utxos) {
    exists i :: 0 <= i < |records| && records[i].0 in w
  }

  ghost predicate Missing(records: seq<(OutPoint, Coin)>, w: Utxos) {
    exists i :: 0 <= i < |records| && records[i].1.height == 0 && records[i].0 !in w
  }

  ghost function OutPoints(records: seq<(OutPoint, Coin)>): set<OutPoint> {
    set r | r in records :: r.0
  }

  ghost predicate DifferentOutpoints(records: seq<(OutPoint, Coin)>) {
    forall i, j :: 0 <= i < j < |records| ==> records[i].0 != records[j].0
  }

  /** Every record is back, and nothing but the recorded outpoints has changed. */
  ghost predicate AllBack(w: Utxos, v: Utxos, records: seq<(OutPoint, Coin)>) {
    && (forall o :: o !in OutPoints(records) ==> (o in v <==> o in w) && (o in w ==> v[o] == w[o]))
    && (forall i :: 0 <= i < |records| ==> Back(w, v, records[i].0, records[i].1))
  }

  lemma AllBackNext(w: Utxos, v: Utxos, records: seq<(OutPoint, Coin)>)
    requires records != [] && DifferentOutpoints(records) && AllBack(w, v, records[..|records| - 1])
    ensures var (o, c) := records[|records| - 1];
            && (o in v <==> o in w)
            && (!PutBack(v, o, c).0.Failed? ==> AllBack(w, PutBack(v, o, c).1, records))
  {
    var n := |records| - 1;
    var (o, c) := records[n];
    var before, x := records[..n], PutBack(v, o, c).1;
    NewOutpoint(records);
    hide IsUnspendable, OutPoints;
    if !PutBack(v, o, c).0.Failed? {
      forall i | 0 <= i < |records|
        ensures Back(w, x, records[i].0, records[i].1)
      {
        if i < n {
          assert Back(w, v, before[i].0, before[i].1) && records[i].0 != o;
        }
      }
    }
  }

  /** Putting back records of different outpoints, on any map: it fails exactly if one without
      a height finds no coin to borrow it from, and else is unclean exactly if one finds a
      coin still there; then every record is back and nothing else has changed. */
  lemma {:induction false} PutBackDistinct(w: Utxos, records: seq<(OutPoint, Coin)>)
    requires DifferentOutpoints(records)
    ensures var (r, v) := PutBackAll(w, records);
            && (r.Failed? <==> Missing(records, w))
            && (!r.Failed? ==> (r.Unclean? <==> Stands(records, w)) && AllBack(w, v, records))
  {
    if records != [] {
      hide AllBack, Missing, Stands;
      PutBackDistinct(w, records[..|records| - 1]);
      MissingNext(records, w);
      StandsNext(records, w);
      var (r, v) := PutBackAll(w, records[..|records| - 1]);
      if !r.Failed? {
        AllBackNext(w, v, records);
      }
    }
  }

  lemma NewOutpoint(records: seq<(OutPoint, Coin)>)
    requires records != [] && DifferentOutpoints(records)
    ensures var n := |records| - 1;
            && OutPoints(records) == OutPoints(records[..n]) + {records[n].0}
            && records[n].0 !in OutPoints(records[..n])
  {
    var n := |records| - 1;
    forall r | r in records
      ensures r in records[..n] || r == records[n]
    {
      var i :| 0 <= i < |records| && records[i] == r;
      assert i < n ==> records[..n][i] == r;
    }
  }

  lemma MissingNext(records: seq<(OutPoint, Coin)>, w: Utxos)
    requires records != []
    ensures var n := |records| - 1;
            Missing(records, w) <==> Missing(records[..n], w) || (records[n].1.height == 0 && records[n].0 !in w)
  {
    var before := records[..|records| - 1];
    forall i | 0 <= i < |before|
      ensures before[i] == records[i]
    {
    }
  }

  lemma StandsNext(records: seq<(OutPoint, Coin)>, w: Utxos)
    requires records != []
    ensures Stands(records, w) <==> Stands(records[..|records| - 1], w) || records[|records| - 1].0 in w
  {
    var before := records[..|records| - 1];
    forall i | 0 <= i < |before|
      ensures before[i] == records[i]
    {
    }
  }

  /** The same said of a transaction whose inputs are all different. */
  ghost predicate InputsBack(r: DisconnectResult, w: Utxos, v: Utxos, inputs: seq<OutPoint>, undo: seq<Coin>)
    requires |inputs| == |undo|
  {
    && (r.Failed? <==> exists j :: 0 <= j < |inputs| && undo[j].height == 0 && inputs[j] !in w)
    && (!r.Failed? ==>
          && (r.Unclean? <==> exists j :: 0 <= j < |inputs| && inputs[j] in w)
          && (forall o :: o !in inputs ==> (o in v <==> o in w) && (o in w ==> v[o] == w[o]))
          && (forall j :: 0 <= j < |inputs| ==> Back(w, v, inputs[j], undo[j])))
  }

  lemma {:induction false} BackwardsAt(inputs: seq<OutPoint>, undo: seq<Coin>, j: nat)
    requires j <= |inputs| == |undo|
    ensures var records := Backwards(inputs, undo, j);
            && |records| == |inputs| - j
            && forall k :: j <= k < |inputs| ==> records[|inputs| - 1 - k] == (inputs[k], undo[k])
    decreases |inputs| - j
  {
    if j < |inputs| {
      BackwardsAt(inputs, undo, j + 1);
    }
  }

  /** The records of a transaction's inputs, from the last to the first. */
  ghost predicate Turned(inputs: seq<OutPoint>, undo: seq<Coin>, records: seq<(OutPoint, Coin)>) {
    && |records| == |inputs| == |undo|
    && forall i :: 0 <= i < |inputs| ==> records[i] == (inputs[|inputs| - 1 - i], undo[|inputs| - 1 - i])
  }

  lemma BackwardsTurned(inputs: seq<OutPoint>, undo: seq<Coin>)
    requires |inputs| == |undo|
    ensures Turned(inputs, undo, Backwards(inputs, undo, 0))
  {
    var records, n := Backwards(inputs, undo, 0), |inputs|;
    BackwardsAt(inputs, undo, 0);
    hide Backwards;
    forall i | 0 <= i < n
      ensures records[i] == (inputs[n - 1 - i], undo[n - 1 - i])
    {
      assert records[n - 1 - (n - 1 - i)] == (inputs[n - 1 - i], undo[n - 1 - i]);
    }
  }

  lemma TurnedRecords(inputs: seq<OutPoint>, undo: seq<Coin>, records: seq<(OutPoint, Coin)>, w: Utxos)
    requires Turned(inputs, undo, records)
    ensures Distinct(inputs) ==> DifferentOutpoints(records)
    ensures Missing(records, w) <==> exists j :: 0 <= j < |inputs| && undo[j].height == 0 && inputs[j] !in w
    ensures Stands(records, w) <==> exists j :: 0 <= j < |inputs| && inputs[j] in w
  {
    var n := |inputs|;
    if j :| 0 <= j < n && undo[j].height == 0 && inputs[j] !in w {
      assert records[n - 1 - j].1.height == 0;
    }
    if j :| 0 <= j < n && inputs[j] in w {
      assert records[n - 1 - j].0 in w;
    }
  }

  lemma TurnedBack(inputs: seq<OutPoint>, undo: seq<Coin>, records: seq<(OutPoint, Coin)>, w: Utxos, v: Utxos)
    requires Turned(inputs, undo, records) && AllBack(w, v, records)
    ensures forall o :: o !in inputs ==> (o in v <==> o in w) && (o in w ==> v[o] == w[o])
    ensures forall j :: 0 <= j < |inputs| ==> Back(w, v, inputs[j], undo[j])
  {
    hide Back;
    SameOutpoints(inputs, undo, records);
    forall j | 0 <= j < |inputs|
      ensures Back(w, v, inputs[j], undo[j])
    {
      assert records[|inputs| - 1 - j] == (inputs[j], undo[j]);
    }
  }

  lemma DistinctBack(w: Utxos, inputs: seq<OutPoint>, undo: seq<Coin>)
    requires Distinct(inputs) && |inputs| == |undo|
    ensures var (r, v) := PutBackAll(w, Backwards(inputs, undo, 0));
            InputsBack(r, w, v, inputs, undo)
  {
    hide Backwards, PutBackAll, Back, Turned, Missing, Stands, DifferentOutpoints, AllBack, Distinct;
    var records := Backwards(inputs, undo, 0);
    var (r, v) := PutBackAll(w, records);
    BackwardsTurned(inputs, undo);
    TurnedRecords(inputs, undo, records, w);
    PutBackDistinct(w, records);
    if !r.Failed? {
      TurnedBack(inputs, undo, records, w, v);
    }
  }

  lemma SameOutpoints(inputs: seq<OutPoint>, undo: seq<Coin>, records: seq<(OutPoint, Coin)>)
    requires Turned(inputs, undo, records)
    ensures OutPoints(records) == set o | o in inputs
  {
    var n := |inputs|;
    forall o | o in inputs
      ensures o in OutPoints(records)
    {
      var k :| 0 <= k < n && inputs[k] == o;
      assert records[n - 1 - k] in records;
    }
    forall r | r in records
      ensures r.0 in inputs
    {
      var i :| 0 <= i < n && records[i] == r;
    }
  }

  /** What undo data for spent coins looks like. */
  ghost predicate UndoFor(u: Utxos, inputs: seq<OutPoint>, undo: seq<Coin>) {
    |undo| == |inputs| && forall j :: 0 <= j < |undo| ==> inputs[j] in u && undo[j] == u[inputs[j]]
  }

  /** The coins of u at some keys, without unspendable ones. */
  ghost function Spendable(u: Utxos, keys: set<OutPoint>): Utxos {
    map o | o in keys && o in u && !IsUnspendable(u[o].script) :: u[o]
  }

  /** The records of spent coins, taken as coins. */
  lemma {:induction false} BackwardsCoins(u: Utxos, inputs: seq<OutPoint>, undo: seq<Coin>, j: nat)
    requires UndoFor(u, inputs, undo) && j <= |inputs|
    ensures var records := Backwards(inputs, undo, j);
            && |records| == |inputs| - j
            && (forall k :: 0 <= k < |records| ==> records[k] == (inputs[|inputs| - 1 - k], undo[|inputs| - 1 - k]))
            && CoinsOf(records) == Spendable(u, KeySet(inputs[j..]))
    decreases |inputs| - j
  {
    if j < |inputs| {
      BackwardsCoins(u, inputs, undo, j + 1);
      var later := Backwards(inputs, undo, j + 1);
      assert Backwards(inputs, undo, j)[..|later|] == later;
      assert KeySet(inputs[j..]) == KeySet(inputs[j + 1..]) + {inputs[j]};
    }
  }

  /** Restoring spent coins, where none of them is on the map: it fails if and only if one of
      them was recorded without a height, which is how a coin created at height zero is
      recorded, and otherwise brings back every spendable one. */
  lemma InputsRestored(w: Utxos, u: Utxos, inputs: seq<OutPoint>, undo: seq<Coin>)
    requires UndoFor(u, inputs, undo) && Distinct(inputs) && forall o :: o in inputs ==> o !in w
    ensures var (r, v) := PutBackAll(w, Backwards(inputs, undo, 0));
            if forall o :: o in inputs ==> HasHeight(u[o]) then r.Ok? && v == w + Spendable(u, KeySet(inputs))
            else r.Failed?
  {
    hide PutBackAll, CoinsOf;
    var records := Backwards(inputs, undo, 0);
    BackwardsCoins(u, inputs, undo, 0);
    assert inputs[0..] == inputs;
    PutBackGone(w, records);
    forall i | 0 <= i < |inputs|
      ensures HasHeight(u[inputs[i]]) <==> HasHeight(records[|inputs| - 1 - i].1)
    {
    }
    if o :| o in inputs && !HasHeight(u[o]) {
      var i :| 0 <= i < |inputs| && inputs[i] == o;
      assert !HasHeight(records[|inputs| - 1 - i].1);
    }
  }

  /** Every spendable output is on the map, once, and as the transaction says. */
  ghost predicate OutputsThere(w: Utxos, tx: Tx, n: nat)
    requires tx.WellFormed() && n <= |tx.outputs|
  {
    forall i :: 0 <= i < n && !IsUnspendable(tx.outputs[i].script) ==> OutputThere(w, tx, i)
  }

  ghost predicate OutputThere(w: Utxos, tx: Tx, i: nat)
    requires tx.WellFormed() && i < |tx.outputs|
  {
    var o := tx.outpoints[i];
    o in w && o !in SpendableOutpoints(tx, i) && tx.outputs[i] == TxOut(w[o].value, w[o].script)
  }

  /** The output loop of DisconnectBlock for one transaction: spends every spendable
      output and compares it with what the transaction says. */
  method RemoveOutputs(tx: Tx, cache: Cache) returns (clean: bool)
    requires cache.Valid() && tx.WellFormed()
    modifies cache.Repr
    ensures cache.Valid() && cache.BaseViews() == old(cache.BaseViews())
    ensures cache.View() == old(cache.View()) - SpendableOutpoints(tx, |tx.outputs|)
    ensures clean <==> OutputsThere(old(cache.View()), tx, |tx.outputs|)
  {
    hide Visible, Coherent, UsageSum, Cache.BaseViews, Cache.BaseValid, Cache.LayerValid, SpendableOutpoints;
    ghost var w := cache.View();
    clean := true;
    NothingRemoved(w, tx);
    for i := 0 to |tx.outputs|
      invariant cache.Valid() && cache.BaseViews() == old(cache.BaseViews())
      invariant cache.View() == w - SpendableOutpoints(tx, i)
      invariant clean <==> OutputsThere(w, tx, i)
    {
      NextOutput(tx, i);
      if !IsUnspendable(tx.outputs[i].script) {
        var moveout := cache.SpendCoin(tx.outpoints[i]);
        var coin := if moveout.Some? then moveout.value else NULL_COIN;
        if tx.outputs[i] != TxOut(coin.value, coin.script) {
          clean := false;
        }
      }
    }
  }

  lemma NothingRemoved(w: Utxos, tx: Tx)
    requires tx.WellFormed()
    ensures w - SpendableOutpoints(tx, 0) == w
  {
  }

  /** The inputs an unspendable coin keeps from being restored. */
  ghost function Lost(u: Utxos, keys: set<OutPoint>): set<OutPoint> {
    set o | o in keys && o in u && IsUnspendable(u[o].script)
  }

  /** Putting the spent coins back and removing the outputs restores the map, up to
      unspendable inputs, and finds every output as it was. */
  lemma DisconnectRestores(u: Utxos, tx: Tx, height: nat)
    requires Applies(u, tx)
    ensures var w := Connected(u, tx, height) + Spendable(u, KeySet(tx.inputs));
            && w - SpendableOutpoints(tx, |tx.outputs|) == u - Lost(u, KeySet(tx.inputs))
            && OutputsThere(w, tx, |tx.outputs|)
  {
    CreatedAt(tx, |tx.outputs|, height);
    var w := Connected(u, tx, height) + Spendable(u, KeySet(tx.inputs));
    forall o | o in SpendableOutpoints(tx, |tx.outputs|)
      ensures o !in u && o !in Spendable(u, KeySet(tx.inputs))
    {
    }
    forall i | 0 <= i < |tx.outputs| && !IsUnspendable(tx.outputs[i].script)
      ensures OutputThere(w, tx, i)
    {
      NextOutput(tx, i);
    }
  }

  /** Connecting a transaction and disconnecting it again with its undo data: if every spent
      coin had a height, the result is clean and every level of the stack is as it was, but
      for unspendable coins among the inputs; otherwise it fails. */
  method ConnectAndDisconnect(tx: Tx, cache: Cache, nHeight: nat) returns (r: DisconnectResult)
    requires cache.Valid() && Applies(cache.View(), tx)
    modifies cache.Repr
    ensures cache.Valid() && cache.BaseViews() == old(cache.BaseViews())
    ensures if forall o :: o in tx.inputs ==> HasHeight(old(cache.View())[o])
            then r.Ok? && cache.View() == old(cache.View()) - Lost(old(cache.View()), KeySet(tx.inputs))
            else r.Failed?
  {
    hide Visible, Coherent, UsageSum, Cache.BaseViews, Cache.BaseValid, Cache.LayerValid, Spendable, SpendableOutpoints,
         PutBackAll, UndoRecord, OutputsThere, Lost;
    ghost var u := cache.View();
    cache.ViewsUnspent();
    var undo := UpdateCoins(tx, cache, nHeight);
    RecordsSpent(u, tx, undo);
    CreatedNew(u, tx, nHeight);
    InputsRestored(cache.View(), u, tx.inputs, undo);
    r := RestoreInputs(tx, undo, cache);
    if !r.Failed? {
      var clean := RemoveOutputs(tx, cache);
      DisconnectRestores(u, tx, nHeight);
      r := if clean then r else Unclean;
    }
  }

  lemma CreatedNew(u: Utxos, tx: Tx, height: nat)
    requires Applies(u, tx)
    ensures forall o :: o in tx.inputs ==> o !in Connected(u, tx, height)
  {
    CreatedAt(tx, |tx.outputs|, height);
  }

  // ---- Value ----

  ghost function Values(u: Utxos): map<OutPoint, int> {
    map o | o in u :: u[o].value
  }

  /** All the money on a map. */
  ghost function TotalValue(u: Utxos): int {
    Sum(Values(u))
  }

  /** What the first n outpoints are worth; a missing coin counts as -1. */
  ghost function ValueOf(u: Utxos, s: seq<OutPoint>, n: nat): int
    requires n <= |s|
  {
    if n == 0 then 0 else ValueOf(u, s, n - 1) + if s[n - 1] in u then u[s[n - 1]].value else -1
  }

  /** What the first n outputs are worth, those that reach the map. */
  ghost function SpendableValue(tx: Tx, n: nat): int
    requires n <= |tx.outputs|
  {
    if n == 0 then 0
    else SpendableValue(tx, n - 1)
         + if IsUnspendable(tx.outputs[n - 1].script) then 0 else tx.outputs[n - 1].value
  }

  /** GetValueIn: the sum over the inputs, where a coin that is not there contributes
      the -1 of a null output. */
  method GetValueIn(tx: Tx, cache: Cache) returns (nResult: int)
    requires cache.Valid()
    modifies cache.Repr
    ensures cache.Valid() && cache.View() == old(cache.View()) && cache.BaseViews() == old(cache.BaseViews())
    ensures nResult == if tx.IsCoinBase() then 0 else ValueOf(cache.View(), tx.inputs, |tx.inputs|)
  {
    hide Visible, Coherent, UsageSum, Cache.BaseViews, Cache.BaseValid, Cache.LayerValid;
    if tx.IsCoinBase() {
      return 0;
    }
    nResult := 0;
    for i := 0 to |tx.inputs|
      invariant cache.Valid() && cache.View() == old(cache.View()) && cache.BaseViews() == old(cache.BaseViews())
      invariant nResult == ValueOf(cache.View(), tx.inputs, i)
    {
      var found := cache.FetchCoin(tx.inputs[i]);
      VisibleAt(cache.cacheCoins, cache.BaseViews()[0], tx.inputs[i]);
      var coin := if found then cache.cacheCoins[tx.inputs[i]].coin else NULL_COIN;
      nResult := nResult + coin.value;
    }
  }

  lemma TotalUpdate(u: Utxos, o: OutPoint, c: Coin)
    requires o !in u
    ensures TotalValue(u[o := c]) == TotalValue(u) + c.value
  {
    assert Values(u[o := c]) == Values(u)[o := c.value];
    SumUpdate(Values(u), o, c.value);
  }

  lemma TotalErase(u: Utxos, o: OutPoint)
    requires o in u
    ensures TotalValue(u - {o}) == TotalValue(u) - u[o].value
  {
    assert Values(u - {o}) == Values(u) - {o};
    SumErase(Values(u), o);
  }

  lemma {:induction false} TotalSpent(u: Utxos, s: seq<OutPoint>, n: nat)
    requires n <= |s| && Distinct(s) && forall o :: o in s ==> o in u
    ensures TotalValue(u - KeySet(s[..n])) == TotalValue(u) - ValueOf(u, s, n)
  {
    if n == 0 {
      NoKeys(u, s);
    } else {
      TotalSpent(u, s, n - 1);
      var before := u - KeySet(s[..n - 1]);
      assert s[n - 1] in before;
      TotalErase(before, s[n - 1]);
      assert u - KeySet(s[..n]) == before - {s[n - 1]};
    }
  }

  lemma {:induction false} TotalAdded(u: Utxos, tx: Tx, n: nat, height: nat)
    requires tx.WellFormed() && n <= |tx.outputs| && Distinct(tx.outpoints)
    requires forall o :: o in tx.outpoints ==> o !in u
    ensures TotalValue(u + Created(tx, n, height)) == TotalValue(u) + SpendableValue(tx, n)
  {
    hide TotalValue, SpendableOutpoints, IsUnspendable;
    if n == 0 {
      assert u + map[] == u;
    } else {
      var before := Created(tx, n - 1, height);
      TotalAdded(u, tx, n - 1, height);
      CreatedAt(tx, n - 1, height);
      NextOutput(tx, n - 1);
      if !IsUnspendable(tx.outputs[n - 1].script) {
        var o, c := tx.outpoints[n - 1], CoinOf(tx.outputs[n - 1], height, tx.IsCoinBase());
        assert u + before[o := c] == (u + before)[o := c];
        TotalUpdate(u + before, o, c);
      }
    }
  }

  /** Connecting a transaction moves the total by its spendable outputs less what
      GetValueIn reports. */
  lemma ValueConserved(u: Utxos, tx: Tx, height: nat)
    requires Applies(u, tx)
    ensures TotalValue(Connected(u, tx, height))
         == TotalValue(u) - ValueOf(u, tx.inputs, |tx.inputs|) + SpendableValue(tx, |tx.outputs|)
  {
    TotalSpent(u, tx.inputs, |tx.inputs|);
    assert tx.inputs[..|tx.inputs|] == tx.inputs;
    TotalAdded(u - KeySet(tx.inputs), tx, |tx.outputs|, height);
  }
}
