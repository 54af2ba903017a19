/** Transactions and blocks applied to a coin cache, and their undo.

    Blocks are connected outputs first, then inputs; they are disconnected inputs first, then outputs. */
module CoinsTx {
  import opened Coins

  datatype TxIn = TxIn(prevout: OutPoint, readOnly: bool)

  datatype Tx = Tx(idem: nat, vin: seq<TxIn>, vout: seq<TxOut>) {
    predicate IsCoinBase() { |vin| == 0 }

    ghost predicate OutputsExist() {
      forall i :: 0 <= i < |vout| ==> !vout[i].IsNull()
    }
  }

  // ----- What a transaction creates and spends -----

  /** The spendable outputs among the first `n`, as coins. */
  ghost function NewCoins(tx: Tx, height: nat, n: nat): (coins: Utxo)
    requires n <= |tx.vout|
  {
    if n == 0 then map[]
    else
      var rest := NewCoins(tx, height, n - 1);
      if tx.vout[n - 1].IsUnspendable() then rest
      else rest[OutPoint(tx.idem, n - 1) := Coin(tx.vout[n - 1], tx.IsCoinBase(), height)]
  }

  lemma {:induction false} NewCoinsSound(tx: Tx, height: nat, n: nat)
    requires n <= |tx.vout|
    ensures forall o :: o in NewCoins(tx, height, n) ==>
              && o.idem == tx.idem && o.n < n && !tx.vout[o.n].IsUnspendable()
              && NewCoins(tx, height, n)[o] == Coin(tx.vout[o.n], tx.IsCoinBase(), height)
  {
    if n > 0 {
      NewCoinsSound(tx, height, n - 1);
    }
  }

  lemma {:induction false} NewCoinsComplete(tx: Tx, height: nat, i: nat, n: nat)
    requires i < n <= |tx.vout| && !tx.vout[i].IsUnspendable()
    ensures OutPoint(tx.idem, i) in NewCoins(tx, height, n)
  {
    if i < n - 1 {
      NewCoinsComplete(tx, height, i, n - 1);
    }
  }

  ghost function Created(tx: Tx, height: nat): (coins: Utxo) {
    NewCoins(tx, height, |tx.vout|)
  }

  ghost function CreatedByAll(txs: seq<Tx>, height: nat): (coins: Utxo) {
    if txs == [] then map[]
    else CreatedByAll(txs[..|txs| - 1], height) + Created(txs[|txs| - 1], height)
  }

  /** The outpoints that the inputs `vin` consume (read-only inputs consume nothing). */
  ghost function Spends(vin: seq<TxIn>): (s: set<OutPoint>) {
    set j | 0 <= j < |vin| && !vin[j].readOnly :: vin[j].prevout
  }

  ghost function SpendsOfAll(txs: seq<Tx>): (s: set<OutPoint>) {
    if txs == [] then {} else SpendsOfAll(txs[..|txs| - 1]) + Spends(txs[|txs| - 1].vin)
  }

  /** Every consumed outpoint is unspent, and consumed once. */
  ghost predicate Spendable(view: Utxo, vin: seq<TxIn>) {
    forall j :: 0 <= j < |vin| && !vin[j].readOnly ==> vin[j].prevout in view && vin[j].prevout !in Spends(vin[..j])
  }

  ghost predicate AllSpendable(view: Utxo, txs: seq<Tx>) {
    forall i :: 0 <= i < |txs| ==> Spendable(view - SpendsOfAll(txs[..i]), txs[i].vin)
  }

  /** The undo record of `vin` over `view`: the consumed coin, or a placeholder for a read-only input. */
  ghost predicate UndoRecord(view: Utxo, vin: seq<TxIn>, undo: seq<Coin>) {
    && |undo| == |vin|
    && forall j :: 0 <= j < |vin| ==>
         if vin[j].readOnly then undo[j] == EMPTY_COIN else vin[j].prevout in view && undo[j] == view[vin[j].prevout]
  }

  // ----- The operations -----

  method AddCoins(cache: CoinsViewCache, tx: Tx, height: nat) returns (threw: bool)
    requires cache.Valid() && tx.OutputsExist()
    requires tx.IsCoinBase() || Created(tx, height).Keys !! cache.view.Keys
    modifies cache
    ensures cache.Valid() && !threw
    ensures cache.view == old(cache.view) + Created(tx, height)
    ensures cache.below == old(cache.below) && cache.best == old(cache.best)
  {
    threw := false;
    for i := 0 to |tx.vout|
      invariant cache.Valid() && !threw
      invariant cache.view == old(cache.view) + NewCoins(tx, height, i)
      invariant cache.below == old(cache.below) && cache.best == old(cache.best)
    {
      NewCoinsStep(old(cache.view), tx, height, i);
      threw := cache.AddCoin(OutPoint(tx.idem, i), Coin(tx.vout[i], tx.IsCoinBase(), height), tx.IsCoinBase());
    }
  }

  lemma NewCoinsStep(view: Utxo, tx: Tx, height: nat, i: nat)
    requires i < |tx.vout|
    ensures var o, coin := OutPoint(tx.idem, i), Coin(tx.vout[i], tx.IsCoinBase(), height);
            var before := view + NewCoins(tx, height, i);
            && view + NewCoins(tx, height, i + 1) ==
               (if tx.vout[i].IsUnspendable() then before else before[o := coin])
            && (Created(tx, height).Keys !! view.Keys && !tx.vout[i].IsUnspendable() ==> o !in before)
  {
    var o := OutPoint(tx.idem, i);
    NewCoinsSound(tx, height, i);
    if !tx.vout[i].IsUnspendable() {
      NewCoinsComplete(tx, height, i, |tx.vout|);
    }
  }

  /** Spends the inputs in order, recording one undo entry per input; stops at the first one that is missing. */
  method SpendCoins(tx: Tx, cache: CoinsViewCache) returns (ok: bool, undo: seq<Coin>)
    requires cache.Valid()
    modifies cache.Repr
    ensures cache.Valid() && cache.below == old(cache.below) && cache.best == old(cache.best)
    ensures ok <==> Spendable(old(cache.view), tx.vin)
    ensures ok ==> UndoRecord(old(cache.view), tx.vin, undo)
    ensures ok ==> cache.view == old(cache.view) - Spends(tx.vin)
    ensures !ok ==> 0 < |undo| <= |tx.vin| && cache.view == old(cache.view) - Spends(tx.vin[..|undo| - 1])
  {
    hide CoinsViewCache.Valid;
    ok, undo := true, [];
    ghost var view := cache.view;
    if !tx.IsCoinBase() {
      for j := 0 to |tx.vin|
        invariant cache.Valid() && cache.below == old(cache.below) && cache.best == old(cache.best)
        invariant |undo| == j && SpentInputs(view, tx.vin[..j], undo)
        invariant cache.view == view - Spends(tx.vin[..j])
      {
        SpendStep(view, tx.vin, j, undo);
        if tx.vin[j].readOnly {
          undo := undo + [EMPTY_COIN];
        } else {
          var spent, moved := cache.SpendCoin(tx.vin[j].prevout);
          undo := undo + [moved];
          if !spent {
            return false, undo;
          }
        }
      }
      assert tx.vin[..|tx.vin|] == tx.vin;
    }
  }

  ghost predicate SpentInputs(view: Utxo, vin: seq<TxIn>, undo: seq<Coin>) {
    UndoRecord(view, vin, undo) && Spendable(view, vin)
  }

  /** One more input looked at. */
  lemma SpendStep(view: Utxo, vin: seq<TxIn>, j: nat, undo: seq<Coin>)
    requires j < |vin|
    requires SpentInputs(view, vin[..j], undo)
    ensures vin[j].readOnly ==>
              && SpentInputs(view, vin[..j + 1], undo + [EMPTY_COIN])
              && Spends(vin[..j + 1]) == Spends(vin[..j])
    ensures var o, rest := vin[j].prevout, view - Spends(vin[..j]);
            !vin[j].readOnly ==>
              && (o in rest ==> SpentInputs(view, vin[..j + 1], undo + [rest[o]]))
              && (o !in rest ==> !Spendable(view, vin))
              && view - Spends(vin[..j + 1]) == Without(rest, o)
  {
    var a, b, o := vin[..j], vin[..j + 1], vin[j].prevout;
    SpendsSnoc(vin, j);
    if vin[j].readOnly || o in view - Spends(a) {
      forall k | 0 <= k < |b| && !b[k].readOnly ensures b[k].prevout in view && b[k].prevout !in Spends(b[..k]) {
        assert b[..k] == vin[..k];
        if k < j { assert a[k] == b[k] && a[..k] == vin[..k]; }
      }
    }
  }

  lemma SpendsSnoc(vin: seq<TxIn>, j: nat)
    requires j < |vin|
    ensures Spends(vin[..j + 1]) == Spends(vin[..j]) + if vin[j].readOnly then {} else {vin[j].prevout}
  {
    var a, b := vin[..j], vin[..j + 1];
    forall o | o in Spends(a) ensures o in Spends(b) {
      var k :| 0 <= k < j && !a[k].readOnly && a[k].prevout == o;
      assert b[k] == a[k];
    }
    forall o | o in Spends(b) ensures o in Spends(a) || (!vin[j].readOnly && o == vin[j].prevout) {
      var k :| 0 <= k < |b| && !b[k].readOnly && b[k].prevout == o;
      if k < j { assert a[k] == b[k]; }
    }
    assert b[j] == vin[j];
  }

  /** Spend the inputs, then add the outputs; the result of the first half is not looked at. */
  method UpdateCoins(tx: Tx, cache: CoinsViewCache, height: nat) returns (undo: seq<Coin>, threw: bool)
    requires cache.Valid() && tx.OutputsExist()
    requires tx.IsCoinBase() || Created(tx, height).Keys !! cache.view.Keys
    modifies cache.Repr
    ensures cache.Valid() && !threw
    ensures cache.below == old(cache.below) && cache.best == old(cache.best)
    ensures Spendable(old(cache.view), tx.vin) ==>
              && UndoRecord(old(cache.view), tx.vin, undo)
              && cache.view == (old(cache.view) - Spends(tx.vin)) + Created(tx, height)
    ensures !Spendable(old(cache.view), tx.vin) ==>
              && 0 < |undo| <= |tx.vin|
              && cache.view == (old(cache.view) - Spends(tx.vin[..|undo| - 1])) + Created(tx, height)
  {
    var ok;
    ok, undo := SpendCoins(tx, cache);
    threw := AddCoins(cache, tx, height);
  }

  /** The undo coins put back, input by input. */
  ghost function Reinserted(view: Utxo, vin: seq<TxIn>, undo: seq<Coin>): (r: Utxo)
    requires |undo| == |vin|
  {
    if vin == [] then view
    else
      var rest := Reinserted(view, vin[1..], undo[1..]);
      if vin[0].readOnly then rest else rest[vin[0].prevout := undo[0]]
  }

  lemma {:induction false} ReinsertedAt(view: Utxo, vin: seq<TxIn>, undo: seq<Coin>, full: Utxo)
    requires UndoRecord(full, vin, undo)
    ensures Reinserted(view, vin, undo).Keys == view.Keys + Spends(vin)
    ensures forall o :: o in Spends(vin) ==> o in full && Reinserted(view, vin, undo)[o] == full[o]
    ensures forall o :: o in view && o !in Spends(vin) ==> Reinserted(view, vin, undo)[o] == view[o]
  {
    if vin != [] {
      ReinsertedAt(view, vin[1..], undo[1..], full);
      assert Spends(vin) == Spends(vin[1..]) + if vin[0].readOnly then {} else {vin[0].prevout} by {
        forall o | o in Spends(vin) ensures o in Spends(vin[1..]) || (!vin[0].readOnly && o == vin[0].prevout) {
          var k :| 0 <= k < |vin| && !vin[k].readOnly && vin[k].prevout == o;
          if k > 0 { assert vin[1..][k - 1] == vin[k]; }
        }
        forall o | o in Spends(vin[1..]) ensures o in Spends(vin) {
          var k :| 0 <= k < |vin| - 1 && !vin[1..][k].readOnly && vin[1..][k].prevout == o;
          assert vin[k + 1] == vin[1..][k];
        }
      }
    }
  }

  /** Undoing an update: take the outputs out, put the undo coins back, and the old view returns. */
  lemma UpdateThenUndo(view: Utxo, tx: Tx, height: nat, undo: seq<Coin>)
    requires UndoRecord(view, tx.vin, undo)
    requires Created(tx, height).Keys !! view.Keys
    ensures var updated := (view - Spends(tx.vin)) + Created(tx, height);
            Reinserted(updated - Created(tx, height).Keys, tx.vin, undo) == view
  {
    var updated := (view - Spends(tx.vin)) + Created(tx, height);
    var bare := updated - Created(tx, height).Keys;
    assert bare == view - Spends(tx.vin);
    ReinsertedAt(bare, tx.vin, undo, view);
    var r := Reinserted(bare, tx.vin, undo);
    assert r.Keys == view.Keys;
    assert forall o :: o in view ==> r[o] == view[o];
  }

  // ----- Whole blocks -----

  /** A block: a coinbase, then ordinary transactions whose outputs are new. */
  ghost predicate WellFormedBlock(view: Utxo, txs: seq<Tx>, height: nat) {
    && |txs| > 0 && txs[0].IsCoinBase()
    && (forall i :: 0 <= i < |txs| ==> txs[i].OutputsExist())
    && (forall i :: 0 < i < |txs| ==> !txs[i].IsCoinBase())
    && (forall i :: 0 < i < |txs| ==> NewOutputs(view, txs, height, i))
  }

  ghost predicate NewOutputs(view: Utxo, txs: seq<Tx>, height: nat, i: nat)
    requires i < |txs|
  {
    && Created(txs[i], height).Keys !! view.Keys
    && Created(txs[i], height).Keys !! CreatedByAll(txs[..i], height).Keys
  }

  ghost predicate BlockUndo(full: Utxo, txs: seq<Tx>, undos: seq<seq<Coin>>) {
    && |undos| + 1 == |txs|
    && forall i :: 0 < i < |txs| ==> UndoRecord(full, txs[i].vin, undos[i - 1])
  }

  lemma CreatedSnoc(txs: seq<Tx>, height: nat, i: nat)
    requires i < |txs|
    ensures CreatedByAll(txs[..i + 1], height) == CreatedByAll(txs[..i], height) + Created(txs[i], height)
    ensures SpendsOfAll(txs[..i + 1]) == SpendsOfAll(txs[..i]) + Spends(txs[i].vin)
  {
    assert txs[..i + 1][..i] == txs[..i];
  }

  method AddAllCoins(cache: CoinsViewCache, txs: seq<Tx>, height: nat)
    requires cache.Valid() && WellFormedBlock(cache.view, txs, height)
    modifies cache
    ensures cache.Valid() && cache.below == old(cache.below)
    ensures cache.view == old(cache.view) + CreatedByAll(txs, height)
  {
    for i := 0 to |txs|
      invariant cache.Valid() && cache.below == old(cache.below)
      invariant cache.view == old(cache.view) + CreatedByAll(txs[..i], height)
    {
      CreatedSnoc(txs, height, i);
      PlusPlus(old(cache.view), CreatedByAll(txs[..i], height), Created(txs[i], height));
      if i > 0 {
        assert NewOutputs(old(cache.view), txs, height, i);
        assert cache.view.Keys == old(cache.view).Keys + CreatedByAll(txs[..i], height).Keys;
      }
      var threw := AddCoins(cache, txs[i], height);
    }
    assert txs[..|txs|] == txs;
  }

  lemma PlusPlus(a: Utxo, b: Utxo, c: Utxo)
    ensures (a + b) + c == a + (b + c)
  {
  }

  lemma MinusMinus(a: Utxo, s: set<OutPoint>, t: set<OutPoint>)
    ensures (a - s) - t == a - (s + t)
  {
  }

  method SpendAllCoins(cache: CoinsViewCache, txs: seq<Tx>) returns (ok: bool, undos: seq<seq<Coin>>)
    requires cache.Valid() && |txs| > 0
    modifies cache.Repr
    ensures cache.Valid() && cache.below == old(cache.below)
    ensures ok <==> AllSpendable(old(cache.view), txs)
    ensures ok ==> cache.view == old(cache.view) - SpendsOfAll(txs) && BlockUndo(old(cache.view), txs, undos)
  {
    undos := [];
    ghost var full := cache.view;
    for i := 0 to |txs|
      invariant cache.Valid() && cache.below == old(cache.below)
      invariant cache.view == full - SpendsOfAll(txs[..i])
      invariant SpentSoFar(full, txs, i, undos)
    {
      CreatedSnoc(txs, 0, i);
      MinusMinus(full, SpendsOfAll(txs[..i]), Spends(txs[i].vin));
      var spent, undo := SpendCoins(txs[i], cache);
      if !spent {
        return false, undos;
      }
      SpentStep(full, txs, i, undos, undo);
      if i > 0 {
        undos := undos + [undo];
      }
    }
    assert txs[..|txs|] == txs;
    ok := true;
  }

  ghost predicate SpentSoFar(full: Utxo, txs: seq<Tx>, i: nat, undos: seq<seq<Coin>>)
    requires i <= |txs|
  {
    && (forall k :: 0 <= k < i ==> Spendable(full - SpendsOfAll(txs[..k]), txs[k].vin))
    && |undos| == (if i == 0 then 0 else i - 1)
    && (forall k :: 0 < k < i ==> UndoRecord(full, txs[k].vin, undos[k - 1]))
  }

  lemma SpentStep(full: Utxo, txs: seq<Tx>, i: nat, undos: seq<seq<Coin>>, undo: seq<Coin>)
    requires i < |txs| && SpentSoFar(full, txs, i, undos)
    requires Spendable(full - SpendsOfAll(txs[..i]), txs[i].vin)
    requires UndoRecord(full - SpendsOfAll(txs[..i]), txs[i].vin, undo)
    ensures SpentSoFar(full, txs, i + 1, if i == 0 then undos else undos + [undo])
  {
    UndoRecordOfMore(full - SpendsOfAll(txs[..i]), full, txs[i].vin, undo);
  }

  lemma UndoRecordOfMore(view: Utxo, full: Utxo, vin: seq<TxIn>, undo: seq<Coin>)
    requires UndoRecord(view, vin, undo)
    requires forall o :: o in view ==> o in full && full[o] == view[o]
    ensures UndoRecord(full, vin, undo)
  {
  }

  /** The coin part of connecting a block: all outputs first, then all inputs. */
  method ConnectCoins(cache: CoinsViewCache, txs: seq<Tx>, height: nat) returns (ok: bool, undos: seq<seq<Coin>>)
    requires cache.Valid() && WellFormedBlock(cache.view, txs, height)
    modifies cache.Repr
    ensures cache.Valid() && cache.below == old(cache.below)
    ensures var full := old(cache.view) + CreatedByAll(txs, height);
            && (ok <==> AllSpendable(full, txs))
            && (ok ==> cache.view == full - SpendsOfAll(txs) && BlockUndo(full, txs, undos))
  {
    AddAllCoins(cache, txs, height);
    ok, undos := SpendAllCoins(cache, txs);
  }

  datatype DisconnectResult = DisconnectOk | DisconnectUnclean | DisconnectFailed

  /** Puts one spent coin back. */
  method ApplyTxInUndo(undo: Coin, cache: CoinsViewCache, o: OutPoint) returns (r: DisconnectResult)
    requires cache.Valid() && !undo.IsSpent()
    modifies cache.Repr
    ensures cache.Valid() && cache.below == old(cache.below)
    ensures r == DisconnectFailed <==> undo.height == 0 && o !in old(cache.view)
    ensures r == DisconnectOk <==> undo.height != 0 && o !in old(cache.view)
    ensures r == DisconnectFailed || undo.out.IsUnspendable() ==> cache.view == old(cache.view)
    ensures r != DisconnectFailed && !undo.out.IsUnspendable() && undo.height != 0 ==>
              cache.view == old(cache.view)[o := undo]
    ensures r != DisconnectFailed && !undo.out.IsUnspendable() && undo.height == 0 ==>
              cache.view == old(cache.view)[o := old(cache.view)[o].(out := undo.out)]
  {
    var coin := undo;
    var have := cache.HaveCoin(o);
    if coin.height == 0 {
      var _, alternate := cache.GetCoin(o);
      if alternate.IsSpent() {
        return DisconnectFailed;
      }
      coin := Coin(coin.out, alternate.coinbase, alternate.height);
    }
    var threw := cache.AddCoin(o, coin, have);
    r := if have then DisconnectUnclean else DisconnectOk;
  }

  ghost function Only(view: Utxo, keys: set<OutPoint>): (r: Utxo) {
    map o | o in keys && o in view :: view[o]
  }

  ghost predicate HeightsKnown(full: Utxo, keys: set<OutPoint>) {
    forall o :: o in keys && o in full ==> full[o].height != 0
  }

  /** Puts the coins of one transaction's inputs back, last input first. */
  method RestoreInputs(cache: CoinsViewCache, vin: seq<TxIn>, undo: seq<Coin>, ghost full: Utxo)
    returns (r: DisconnectResult)
    requires cache.Valid() && Spendable(full, vin) && UndoRecord(full, vin, undo)
    requires forall o :: o in Spends(vin) && o in full ==> !full[o].IsSpent() && !full[o].out.IsUnspendable()
    requires cache.view.Keys !! Spends(vin)
    modifies cache.Repr
    ensures cache.Valid() && cache.below == old(cache.below)
    ensures r == if HeightsKnown(full, Spends(vin)) then DisconnectOk else DisconnectFailed
    ensures r == DisconnectOk ==> cache.view == old(cache.view) + Only(full, Spends(vin))
  {
    hide CoinsViewCache.Valid;
    var j := |vin|;
    assert vin[..j] == vin;
    while j > 0
      invariant 0 <= j <= |vin|
      invariant cache.Valid() && cache.below == old(cache.below)
      invariant cache.view == old(cache.view) + Only(full, Spends(vin) - Spends(vin[..j]))
      invariant HeightsKnown(full, Spends(vin) - Spends(vin[..j]))
    {
      j := j - 1;
      RestoreStep(old(cache.view), full, vin, j);
      if !vin[j].readOnly {
        r := ApplyTxInUndo(undo[j], cache, vin[j].prevout);
        if r == DisconnectFailed {
          return;
        }
      }
    }
    assert Spends(vin) - Spends(vin[..0]) == Spends(vin);
    r := DisconnectOk;
  }

  lemma RestoreStep(start: Utxo, full: Utxo, vin: seq<TxIn>, j: nat)
    requires Spendable(full, vin) && j < |vin| && start.Keys !! Spends(vin)
    ensures vin[j].readOnly ==> Spends(vin[..j]) == Spends(vin[..j + 1])
    ensures !vin[j].readOnly ==>
              var o, before := vin[j].prevout, start + Only(full, Spends(vin) - Spends(vin[..j + 1]));
              && o in full && o in Spends(vin) && o !in before
              && Spends(vin) - Spends(vin[..j]) == Spends(vin) - Spends(vin[..j + 1]) + {o}
              && start + Only(full, Spends(vin) - Spends(vin[..j])) == before[o := full[o]]
  {
    SpendsSnoc(vin, j);
    if !vin[j].readOnly {
      assert vin[j].prevout in Spends(vin);
    }
  }

  /** After the first `i` transactions' inputs are back. */
  ghost function Restored(full: Utxo, txs: seq<Tx>, i: nat): (r: Utxo)
    requires i <= |txs|
  {
    full - (SpendsOfAll(txs) - SpendsOfAll(txs[..i]))
  }

  lemma RestoredStep(full: Utxo, txs: seq<Tx>, i: nat)
    requires i < |txs| && AllSpendable(full, txs)
    ensures Spendable(full, txs[i].vin)
    ensures Restored(full, txs, i).Keys !! Spends(txs[i].vin)
    ensures Restored(full, txs, i + 1) == Restored(full, txs, i) + Only(full, Spends(txs[i].vin))
    ensures Spends(txs[i].vin) <= SpendsOfAll(txs)
    ensures SpendsOfAll(txs[..i + 1]) == SpendsOfAll(txs[..i]) + Spends(txs[i].vin)
  {
    var vin := txs[i].vin;
    var avail := full - SpendsOfAll(txs[..i]);
    assert Spendable(avail, vin);
    CreatedSnoc(txs, 0, i);
    SpendsOfPrefix(txs, i + 1);
    forall o | o in Spends(vin) ensures o in full && o !in SpendsOfAll(txs[..i]) {
      var k :| 0 <= k < |vin| && !vin[k].readOnly && vin[k].prevout == o;
    }
    PutBack(full, SpendsOfAll(txs), SpendsOfAll(txs[..i]), Spends(vin));
  }

  lemma PutBack(full: Utxo, all: set<OutPoint>, done: set<OutPoint>, more: set<OutPoint>)
    requires more <= all && more !! done
    ensures full - (all - (done + more)) == (full - (all - done)) + Only(full, more)
  {
  }

  lemma SpendsOfPrefix(txs: seq<Tx>, i: nat)
    requires i <= |txs|
    ensures SpendsOfAll(txs[..i]) <= SpendsOfAll(txs)
    decreases |txs| - i
  {
    if i < |txs| {
      CreatedSnoc(txs, 0, i);
      SpendsOfPrefix(txs, i + 1);
    } else {
      assert txs[..i] == txs;
    }
  }

  /** First half of disconnecting a block: every consumed coin is put back, unless one of them carries no height. */
  method RestoreAllInputs(cache: CoinsViewCache, txs: seq<Tx>, undos: seq<seq<Coin>>, ghost full: Utxo)
    returns (r: DisconnectResult)
    requires cache.Valid() && AllUnspent(full)
    requires |txs| > 0 && txs[0].IsCoinBase() && AllSpendable(full, txs) && BlockUndo(full, txs, undos)
    requires forall o :: o in full ==> !full[o].out.IsUnspendable()
    requires cache.view == full - SpendsOfAll(txs)
    modifies cache.Repr
    ensures cache.Valid() && cache.below == old(cache.below)
    ensures r == if HeightsKnown(full, SpendsOfAll(txs)) then DisconnectOk else DisconnectFailed
    ensures r == DisconnectOk ==> cache.view == full
  {
    CreatedSnoc(txs, 0, 0);
    assert SpendsOfAll(txs[..1]) == {};
    hide CoinsViewCache.Valid;
    for i := 1 to |txs|
      invariant cache.Valid() && cache.below == old(cache.below)
      invariant cache.view == Restored(full, txs, i)
      invariant HeightsKnown(full, SpendsOfAll(txs[..i]))
    {
      RestoredStep(full, txs, i);
      r := RestoreInputs(cache, txs[i].vin, undos[i - 1], full);
      if r == DisconnectFailed {
        return;
      }
    }
    assert txs[..|txs|] == txs;
    r := DisconnectOk;
  }

  /** Spends one transaction's spendable outputs again, comparing each with the block. */
  method RemoveOutputs(cache: CoinsViewCache, tx: Tx, ghost height: nat) returns (clean: bool)
    requires cache.Valid() && tx.OutputsExist()
    modifies cache.Repr
    ensures cache.Valid() && cache.below == old(cache.below)
    ensures cache.view == old(cache.view) - Created(tx, height).Keys
    ensures clean <==> OutputsMatch(old(cache.view), tx, height, |tx.vout|)
  {
    hide CoinsViewCache.Valid;
    clean := true;
    for n := 0 to |tx.vout|
      invariant cache.Valid() && cache.below == old(cache.below)
      invariant cache.view == old(cache.view) - NewCoins(tx, height, n).Keys
      invariant clean <==> OutputsMatch(old(cache.view), tx, height, n)
    {
      RemoveStep(old(cache.view), tx, height, n);
      if !tx.vout[n].IsUnspendable() {
        var _, coin := cache.SpendCoin(OutPoint(tx.idem, n));
        if coin.out != tx.vout[n] {
          clean := false;
        }
      }
    }
  }

  ghost predicate OutputsMatch(view: Utxo, tx: Tx, height: nat, n: nat)
    requires n <= |tx.vout|
  {
    forall o :: o in NewCoins(tx, height, n) ==> o in view && view[o].out == NewCoins(tx, height, n)[o].out
  }

  lemma RemoveStep(view: Utxo, tx: Tx, height: nat, n: nat)
    requires n < |tx.vout|
    ensures var o, before := OutPoint(tx.idem, n), view - NewCoins(tx, height, n).Keys;
            if tx.vout[n].IsUnspendable() then NewCoins(tx, height, n + 1) == NewCoins(tx, height, n)
            else
              && view - NewCoins(tx, height, n + 1).Keys == Without(before, o)
              && (OutputsMatch(view, tx, height, n + 1) <==>
                    OutputsMatch(view, tx, height, n) && o in before && before[o].out == tx.vout[n])
  {
    var o := OutPoint(tx.idem, n);
    NewCoinsSound(tx, height, n);
    assert o !in NewCoins(tx, height, n);
  }

  /** Transaction `i` made its coins where nobody before it had, and nobody after it replaced them. */
  lemma {:induction false} CreatedCoinsStay(view: Utxo, txs: seq<Tx>, height: nat, i: nat, n: nat)
    requires WellFormedBlock(view, txs, height) && i < n <= |txs|
    ensures Within(Created(txs[i], height), CreatedByAll(txs[..n], height))
  {
    hide Created, CreatedByAll, WellFormedBlock, Within;
    CreatedSnoc(txs, height, n - 1);
    var before, last := CreatedByAll(txs[..n - 1], height), Created(txs[n - 1], height);
    if i == n - 1 {
      WithinLast(before, last);
    } else {
      CreatedCoinsStay(view, txs, height, i, n - 1);
      OutputsAreNew(view, txs, height, n - 1);
      WithinMore(Created(txs[i], height), before, last);
    }
  }

  /** All coins of the one view are in the other. */
  ghost predicate Within(a: Utxo, b: Utxo) {
    forall o :: o in a ==> o in b && b[o] == a[o]
  }

  lemma WithinLast(a: Utxo, b: Utxo)
    ensures Within(b, a + b)
  {
  }

  lemma WithinMore(c: Utxo, a: Utxo, b: Utxo)
    requires Within(c, a) && b.Keys !! a.Keys
    ensures Within(c, a + b)
  {
  }

  lemma OutputsAreNew(view: Utxo, txs: seq<Tx>, height: nat, i: nat)
    requires WellFormedBlock(view, txs, height) && 0 < i < |txs|
    ensures Created(txs[i], height).Keys !! CreatedByAll(txs[..i], height).Keys
  {
    assert NewOutputs(view, txs, height, i);
  }

  method RemoveAllOutputs(cache: CoinsViewCache, txs: seq<Tx>, ghost height: nat, ghost start: Utxo)
    returns (clean: bool)
    requires cache.Valid() && WellFormedBlock(start, txs, height)
    requires cache.view == start + CreatedByAll(txs, height)
    modifies cache.Repr
    ensures cache.Valid() && cache.below == old(cache.below)
    ensures clean
    ensures cache.view == start - CreatedByAll(txs, height).Keys
  {
    hide CoinsViewCache.Valid, OutputsMatch;
    clean := true;
    ghost var full := cache.view;
    for i := 0 to |txs|
      invariant cache.Valid() && cache.below == old(cache.below)
      invariant clean
      invariant cache.view == full - CreatedByAll(txs[..i], height).Keys
    {
      CreatedSnoc(txs, height, i);
      CreatedStillThere(start, txs, height, i);
      MinusMinus(full, CreatedByAll(txs[..i], height).Keys, Created(txs[i], height).Keys);
      var same := RemoveOutputs(cache, txs[i], height);
      clean := clean && same;
    }
    assert txs[..|txs|] == txs;
    PlusMinus(start, CreatedByAll(txs, height));
  }

  lemma PlusMinus(a: Utxo, b: Utxo)
    ensures (a + b) - b.Keys == a - b.Keys
  {
  }

  lemma CreatedStillThere(start: Utxo, txs: seq<Tx>, height: nat, i: nat)
    requires WellFormedBlock(start, txs, height) && i < |txs|
    ensures var full := start + CreatedByAll(txs, height);
            OutputsMatch(full - CreatedByAll(txs[..i], height).Keys, txs[i], height, |txs[i].vout|)
  {
    CreatedCoinsStay(start, txs, height, i, |txs|);
    if i > 0 { OutputsAreNew(start, txs, height, i); }
    assert txs[..|txs|] == txs;
    if i == 0 { assert CreatedByAll(txs[..0], height) == map[]; }
  }

  /** Undoes a block on a cache that stands where connecting it left off (`start` is the view before). */
  method DisconnectBlock(cache: CoinsViewCache, txs: seq<Tx>, undos: seq<seq<Coin>>, prevBlock: BlockHash,
                         ghost height: nat, ghost start: Utxo)
    returns (r: DisconnectResult)
    requires cache.Valid() && AllUnspent(start) && WellFormedBlock(start, txs, height)
    requires var full := start + CreatedByAll(txs, height);
             AllSpendable(full, txs) && BlockUndo(full, txs, undos) && cache.view == full - SpendsOfAll(txs)
    requires forall o :: o in start ==> !start[o].out.IsUnspendable()
    modifies cache.Repr
    ensures cache.Valid() && cache.below == old(cache.below)
    ensures var full := start + CreatedByAll(txs, height);
            r == if HeightsKnown(full, SpendsOfAll(txs)) then DisconnectOk else DisconnectFailed
    ensures r == DisconnectOk ==> cache.view == start - CreatedByAll(txs, height).Keys
    ensures r == DisconnectOk && prevBlock != NULL_HASH ==> cache.best == prevBlock
  {
    ghost var full := start + CreatedByAll(txs, height);
    CreatedCoinsAreGood(txs, height);
    r := RestoreAllInputs(cache, txs, undos, full);
    if r == DisconnectFailed {
      return;
    }
    var clean := RemoveAllOutputs(cache, txs, height, start);
    cache.SetBestBlock(prevBlock);
    r := if clean then DisconnectOk else DisconnectUnclean;
  }

  lemma {:induction false} CreatedCoinsAreGood(txs: seq<Tx>, height: nat)
    requires forall i :: 0 <= i < |txs| ==> txs[i].OutputsExist()
    ensures forall o :: o in CreatedByAll(txs, height) ==>
              !CreatedByAll(txs, height)[o].IsSpent() && !CreatedByAll(txs, height)[o].out.IsUnspendable()
  {
    if txs != [] {
      CreatedCoinsAreGood(txs[..|txs| - 1], height);
      NewCoinsSound(txs[|txs| - 1], height, |txs[|txs| - 1].vout|);
      assert txs[|txs| - 1].OutputsExist();
    }
  }

  /** Connecting a block and disconnecting it again gives back the view it started from, without the coins that
      the coinbase may have overwritten. */
  method BlockRoundTrip(cache: CoinsViewCache, txs: seq<Tx>, height: nat, prevBlock: BlockHash)
    returns (connected: bool, r: DisconnectResult)
    requires cache.Valid() && WellFormedBlock(cache.view, txs, height)
    requires forall o :: o in cache.view ==> !cache.view[o].out.IsUnspendable()
    modifies cache.Repr
    ensures cache.Valid() && cache.below == old(cache.below)
    ensures connected <==> AllSpendable(old(cache.view) + CreatedByAll(txs, height), txs)
    ensures connected ==>
              (r == DisconnectOk <==> HeightsKnown(old(cache.view) + CreatedByAll(txs, height), SpendsOfAll(txs)))
    ensures connected && r == DisconnectOk ==> cache.view == old(cache.view) - CreatedByAll(txs, height).Keys
    ensures connected && r == DisconnectOk ==>
              (cache.view == old(cache.view) <==> Created(txs[0], height).Keys * old(cache.view).Keys == {})
  {
    ghost var start := cache.view;
    var undos;
    connected, undos := ConnectCoins(cache, txs, height);
    r := DisconnectFailed;
    if connected {
      r := DisconnectBlock(cache, txs, undos, prevBlock, height, start);
      RestoredExactly(start, txs, height);
    }
  }

  lemma RestoredExactly(start: Utxo, txs: seq<Tx>, height: nat)
    requires WellFormedBlock(start, txs, height)
    ensures start - CreatedByAll(txs, height).Keys == start <==> Created(txs[0], height).Keys * start.Keys == {}
  {
    OnlyTheCoinbaseOverwrites(start, txs, height, |txs|);
    assert txs[..|txs|] == txs;
    MinusNothing(start, CreatedByAll(txs, height).Keys);
  }

  lemma MinusNothing(a: Utxo, s: set<OutPoint>)
    ensures a - s == a <==> s * a.Keys == {}
  {
    if s * a.Keys == {} {
      assert forall o :: o in s && o in a ==> o in s * a.Keys;
      assert a - s == a;
    } else {
      var o :| o in s * a.Keys;
      assert o !in a - s;
    }
  }

  lemma {:induction false} OnlyTheCoinbaseOverwrites(start: Utxo, txs: seq<Tx>, height: nat, n: nat)
    requires WellFormedBlock(start, txs, height) && 0 < n <= |txs|
    ensures CreatedByAll(txs[..n], height).Keys * start.Keys == Created(txs[0], height).Keys * start.Keys
  {
    CreatedSnoc(txs, height, n - 1);
    if n > 1 {
      OnlyTheCoinbaseOverwrites(start, txs, height, n - 1);
      assert NewOutputs(start, txs, height, n - 1);
    } else {
      assert CreatedByAll(txs[..0], height) == map[];
    }
  }
}
