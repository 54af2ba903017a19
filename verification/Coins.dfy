/** The unspent-coin cache: a write-back cache over another view, which may itself be a cache.

    Each cache owns the view below it (one child per base), so the whole stack is one heap
    structure.  `Valid` says what the DIRTY and FRESH flags mean; `View` is the plain map of
    unspent coins that a cache stands for; `Views` lists the views from the top cache down to
    the database. */
module Coins {

  const OP_RETURN: int := 0x6a
  const MAX_SCRIPT_SIZE: nat := 10000

  /** The hash that names a block; zero is the null hash. */
  type BlockHash = nat

  const NULL_HASH: BlockHash := 0

  /** An outpoint names one output of one transaction (in the source, a hash of both). */
  datatype OutPoint = OutPoint(idem: nat, n: nat)

  datatype TxOut = TxOut(value: int, script: seq<int>) {
    predicate IsNull() { value == -1 }

    predicate IsUnspendable() {
      (|script| > 0 && script[0] == OP_RETURN) || |script| > MAX_SCRIPT_SIZE
    }
  }

  datatype Coin = Coin(out: TxOut, coinbase: bool, height: nat) {
    predicate IsSpent() { out.IsNull() }
  }

  const EMPTY_COIN := Coin(TxOut(-1, []), false, 0)

  datatype Entry = Entry(coin: Coin, isDirty: bool, isFresh: bool)

  type Utxo = map<OutPoint, Coin>
  type CacheMap = map<OutPoint, Entry>

  // ----- What a cache map means over a base view -----

  ghost predicate AllUnspent(view: Utxo) {
    forall o :: o in view ==> !view[o].IsSpent()
  }

  /** What one entry's flags promise about the base view. */
  ghost predicate EntryOk(e: Entry, o: OutPoint, below: Utxo) {
    && (!e.isDirty && !e.isFresh ==> o in below && below[o] == e.coin)
    && (e.isFresh ==> o !in below)
    && (e.isFresh ==> (e.isDirty <==> !e.coin.IsSpent()))
  }

  ghost predicate FlagsOk(cache: CacheMap, below: Utxo) {
    forall o :: o in cache ==> EntryOk(cache[o], o, below)
  }

  /** The unspent coins visible through `cache` over `below`. */
  ghost function Overlay(cache: CacheMap, below: Utxo): (view: Utxo)
    ensures AllUnspent(below) ==> AllUnspent(view)
  {
    map o | o in cache.Keys + below.Keys && (o in cache ==> !cache[o].coin.IsSpent()) ::
      if o in cache then cache[o].coin else below[o]
  }

  /** Is `o` unspent in this view, and with which coin? */
  ghost predicate Sees(view: Utxo, o: OutPoint, coin: Coin) {
    if o in view then coin == view[o] else coin.IsSpent()
  }

  ghost function Without(view: Utxo, o: OutPoint): (r: Utxo) {
    map p | p in view && p != o :: view[p]
  }

  /** The clean entries of `m`, and all entries for `kept`. */
  ghost function Clean(m: CacheMap, kept: set<OutPoint>): (r: CacheMap) {
    map o | o in m && (o in kept || !m[o].isDirty) :: m[o]
  }

  /** Entries whose flags keep their promise and that are not dirty never change the view. */
  lemma CleanEntriesAreInvisible(cache: CacheMap, below: Utxo)
    requires AllUnspent(below)
    requires FlagsOk(cache, below)
    requires forall o :: o in cache ==> !cache[o].isDirty
    ensures Overlay(cache, below) == below
  {
    var view := Overlay(cache, below);
    forall o ensures o in view <==> o in below {
      if o in cache { assert EntryOk(cache[o], o, below); }
    }
    forall o | o in below ensures view[o] == below[o] {
      if o in cache { assert EntryOk(cache[o], o, below); }
    }
  }

  /** Caching a coin read from below keeps both the flags' promises and the view. */
  lemma FetchStep(cache: CacheMap, below: Utxo, o: OutPoint, coin: Coin)
    requires AllUnspent(below) && FlagsOk(cache, below) && o !in cache
    requires Sees(below, o, coin)
    ensures var after := cache[o := Entry(coin, false, coin.IsSpent())];
            FlagsOk(after, below) && Overlay(after, below) == Overlay(cache, below)
  {
    var after := cache[o := Entry(coin, false, coin.IsSpent())];
    forall p | p in after ensures EntryOk(after[p], p, below) {
      if p != o { assert EntryOk(cache[p], p, below); }
    }
  }

  /** Writing a dirty entry: the flags stay truthful exactly when the FRESH bit is earned. */
  lemma WriteStep(cache: CacheMap, below: Utxo, o: OutPoint, e: Entry)
    requires FlagsOk(cache, below)
    requires e.isDirty
    requires e.isFresh ==> !e.coin.IsSpent()
    ensures FlagsOk(cache[o := e], below) <==> (e.isFresh ==> o !in below)
    ensures Overlay(cache[o := e], below) ==
            if e.coin.IsSpent() then Without(Overlay(cache, below), o) else Overlay(cache, below)[o := e.coin]
  {
    var after := cache[o := e];
    if e.isFresh ==> o !in below {
      forall p | p in after ensures EntryOk(after[p], p, below) {
        if p != o { assert EntryOk(cache[p], p, below); }
      }
    } else {
      assert !EntryOk(after[o], o, below);
    }
    var view, want := Overlay(after, below),
        if e.coin.IsSpent() then Without(Overlay(cache, below), o) else Overlay(cache, below)[o := e.coin];
    assert forall p :: p in view <==> p in want;
    assert forall p :: p in view ==> view[p] == want[p];
  }

  /** Dropping a FRESH entry spends its coin. */
  lemma DropFreshStep(cache: CacheMap, below: Utxo, o: OutPoint)
    requires FlagsOk(cache, below)
    requires o in cache && cache[o].isFresh
    ensures FlagsOk(cache - {o}, below)
    ensures Overlay(cache - {o}, below) == Without(Overlay(cache, below), o)
  {
    var after := cache - {o};
    assert EntryOk(cache[o], o, below);
    forall p | p in after ensures EntryOk(after[p], p, below) {
      assert EntryOk(cache[p], p, below);
    }
    var view, want := Overlay(after, below), Without(Overlay(cache, below), o);
    assert forall p :: p in view <==> p in want;
  }

  /** Dropping entries with no flag set changes nothing that can be seen. */
  lemma DropCleanStep(cache: CacheMap, below: Utxo, dropped: set<OutPoint>)
    requires AllUnspent(below) && FlagsOk(cache, below)
    requires forall o :: o in dropped && o in cache ==> !cache[o].isDirty && !cache[o].isFresh
    ensures FlagsOk(cache - dropped, below)
    ensures Overlay(cache - dropped, below) == Overlay(cache, below)
  {
    var after := cache - dropped;
    forall o | o in after ensures EntryOk(after[o], o, below) {
      assert EntryOk(cache[o], o, below);
    }
    var view, want := Overlay(after, below), Overlay(cache, below);
    forall o ensures o in view <==> o in want {
      if o in cache { assert EntryOk(cache[o], o, below); }
    }
    forall o | o in view ensures view[o] == want[o] {
      if o in cache { assert EntryOk(cache[o], o, below); }
    }
  }

  /** One more entry of `m` taken into account: what it does to the view below. */
  lemma MergeStep(m: CacheMap, todo: set<OutPoint>, o: OutPoint, view: Utxo)
    requires AllUnspent(view) && FlagsOk(m, view)
    requires o in todo && todo <= m.Keys
    ensures FlagsOk(m - todo, view)
    ensures var before := Overlay(m - todo, view);
            Overlay(m - (todo - {o}), view) ==
            if !m[o].isDirty then before
            else if m[o].coin.IsSpent() then Without(before, o) else before[o := m[o].coin]
    ensures var before := Overlay(m - todo, view);
            (o in before <==> o in view) && (o in view ==> before[o] == view[o])
  {
    var done := m - todo;
    assert EntryOk(m[o], o, view);
    forall p | p in done ensures EntryOk(done[p], p, view) {
      assert EntryOk(m[p], p, view);
    }
    assert m - (todo - {o}) == done[o := m[o]];
    if m[o].isDirty {
      WriteStep(done, view, o, m[o]);
    } else {
      FetchStep(done, view, o, m[o].coin);
    }
  }

  /** The clean entries left behind by a write-back still keep their promise over the new base. */
  lemma CleanEntriesSurviveWriteBack(m: CacheMap, below: Utxo)
    requires AllUnspent(below) && FlagsOk(m, below)
    ensures FlagsOk(Clean(m, {}), Overlay(m, below))
  {
    var rest := Clean(m, {});
    forall o | o in rest ensures EntryOk(rest[o], o, Overlay(m, below)) {
      assert EntryOk(m[o], o, below);
    }
  }

  // ----- Operations on a stack of plain maps -----

  /** What a client may do: any operation on the top cache, and on the caches under it (`Under`) anything
      that does not add or spend. */
  datatype Op =
    | Add(o: OutPoint, coin: Coin, overwrite: bool)
    | Spend(o: OutPoint)
    | Get(o: OutPoint)
    | Have(o: OutPoint)
    | Drop(o: OutPoint)
    | TrimCache
    | FlushCache(keep: bool)
    | Under(op: Op)

  ghost predicate Legal(views: seq<Utxo>, op: Op)
    requires |views| >= 2
    decreases op
  {
    match op
    case Add(o, coin, overwrite) => !coin.IsSpent() && (overwrite || coin.out.IsUnspendable() || o !in views[0])
    case Under(inner) => |views| >= 3 && !inner.Add? && !inner.Spend? && Legal(views[1..], inner)
    case _ => true
  }

  ghost function AfterOp(views: seq<Utxo>, op: Op): (r: seq<Utxo>)
    requires |views| >= 2
    requires Legal(views, op)
    decreases op
    ensures |r| == |views|
  {
    match op
    case Add(o, coin, _) => if coin.out.IsUnspendable() then views else views[0 := views[0][o := coin]]
    case Spend(o) => views[0 := Without(views[0], o)]
    case FlushCache(_) => views[1 := views[0]]
    case Under(inner) => [views[0]] + AfterOp(views[1..], inner)
    case _ => views
  }

  ghost predicate LegalRun(views: seq<Utxo>, ops: seq<Op>)
    requires |views| >= 2
    decreases |ops|
  {
    |ops| > 0 ==> Legal(views, ops[0]) && LegalRun(AfterOp(views, ops[0]), ops[1..])
  }

  ghost function AfterRun(views: seq<Utxo>, ops: seq<Op>): (r: seq<Utxo>)
    requires |views| >= 2
    requires LegalRun(views, ops)
    decreases |ops|
    ensures |r| == |views|
  {
    if ops == [] then views else AfterRun(AfterOp(views, ops[0]), ops[1..])
  }

  lemma LowerOpsKeepTheTop(views: seq<Utxo>, op: Op)
    requires |views| >= 2 && Legal(views, op)
    requires !op.Add? && !op.Spend?
    ensures AfterOp(views, op)[0] == views[0]
  {
  }

  /** The bottom of every stack. */
  /** All entries but those in `todo` are written to the database; those that stay cached are clean. */
  ghost predicate Batched(m: CacheMap, rest: CacheMap, todo: set<OutPoint>, coins: Utxo, was: Utxo) {
    && todo <= rest.Keys <= m.Keys
    && (forall o :: o in todo ==> rest[o] == m[o])
    && (forall o :: o in rest ==> rest[o].coin == m[o].coin)
    && (forall o :: o in rest && o !in todo ==> !rest[o].isDirty && EntryOk(rest[o], o, coins))
    && coins == Overlay(m - todo, was)
  }

  lemma BatchStep(m: CacheMap, rest: CacheMap, todo: set<OutPoint>, coins: Utxo, was: Utxo, o: OutPoint, keep: bool)
    requires AllUnspent(was) && FlagsOk(m, was) && Batched(m, rest, todo, coins, was) && o in todo && o in rest
    ensures var e := rest[o];
            var after := if !e.isDirty then coins else if e.coin.IsSpent() then Without(coins, o) else coins[o := e.coin];
            var left := if !e.isDirty then rest
                        else if keep && !e.coin.IsSpent() then rest[o := Entry(e.coin, false, false)] else rest - {o};
            todo - {o} <= left.Keys && Batched(m, left, todo - {o}, after, was)
  {
    MergeStep(m, todo, o, was);
    assert EntryOk(rest[o], o, was);
    hide Overlay, FlagsOk, AllUnspent;
    var e := rest[o];
    var after := if !e.isDirty then coins else if e.coin.IsSpent() then Without(coins, o) else coins[o := e.coin];
    forall p | p in rest && p !in todo ensures EntryOk(rest[p], p, after) {
      assert p != o && EntryOk(rest[p], p, coins);
    }
    if !e.isDirty { OthersWritten(m, rest, todo, after, was, o, rest); return; }
    if keep && !e.coin.IsSpent() { OthersWritten(m, rest, todo, after, was, o, rest[o := Entry(e.coin, false, false)]); return; }
    OthersWritten(m, rest, todo, after, was, o, rest - {o});
  }

  lemma OthersWritten(m: CacheMap, rest: CacheMap, todo: set<OutPoint>, after: Utxo, was: Utxo, o: OutPoint, left: CacheMap)
    requires todo <= rest.Keys <= m.Keys && o in todo && after == Overlay(m - (todo - {o}), was)
    requires (forall p :: p in todo ==> rest[p] == m[p]) && (forall p :: p in rest ==> rest[p].coin == m[p].coin)
    requires forall p :: p in rest && p !in todo ==> !rest[p].isDirty && EntryOk(rest[p], p, after)
    requires left == rest - {o} || (o in left && left == rest[o := left[o]] && left[o].coin == m[o].coin
                                    && !left[o].isDirty && EntryOk(left[o], o, after))
    ensures Batched(m, left, todo - {o}, after, was)
  {
    hide Overlay;
  }

  lemma BatchDone(m: CacheMap, rest: CacheMap, coins: Utxo, was: Utxo)
    requires Batched(m, rest, {}, coins, was)
    ensures coins == Overlay(m, was) && rest.Keys <= m.Keys && FlagsOk(rest, coins)
    ensures forall o :: o in rest ==> !rest[o].isDirty && rest[o].coin == m[o].coin
  {
    assert m - {} == m;
    hide Overlay;
  }

  class Database {
    var coins: Utxo
    var best: BlockHash

    constructor ()
      ensures coins == map[] && best == NULL_HASH
    {
      coins := map[];
      best := NULL_HASH;
    }

    /** Writes every dirty entry; `keep` is the node's choice to leave written coins cached. */
    method BatchWrite(m: CacheMap, hash: BlockHash, keep: bool) returns (rest: CacheMap)
      requires AllUnspent(coins)
      requires FlagsOk(m, coins)
      modifies this
      ensures coins == Overlay(m, old(coins))
      ensures best == if hash == NULL_HASH then old(best) else hash
      ensures rest.Keys <= m.Keys
      ensures forall o :: o in rest ==> !rest[o].isDirty && rest[o].coin == m[o].coin
      ensures FlagsOk(rest, coins)
    {
      rest := m;
      var todo := m.Keys;
      ghost var was := coins;
      assert Overlay(m - todo, was) == was;
      assert Batched(m, rest, todo, coins, was);
      hide Batched, Overlay;
      while todo != {}
        invariant todo <= rest.Keys && Batched(m, rest, todo, coins, was)
        invariant best == old(best)
        decreases todo
      {
        var o :| o in todo;
        var e := rest[o];
        BatchStep(m, rest, todo, coins, was, o, keep);
        if e.isDirty {
          if e.coin.IsSpent() {
            coins := map p | p in coins && p != o :: coins[p];
            rest := rest - {o};
          } else {
            coins := coins[o := e.coin];
            rest := if keep then rest[o := Entry(e.coin, false, false)] else rest - {o};
          }
        }
        todo := todo - {o};
      }
      BatchDone(m, rest, coins, was);
      if hash != NULL_HASH {
        best := hash;
      }
    }
  }

  /** The loop of BatchWrite: child entries `m` are merged into `cache`, one entry at a time in any order.
      `threw` models the logic_error for a misapplied FRESH flag. */
  method MergeChild(cache: CacheMap, m: CacheMap, ghost below: Utxo, ghost view: Utxo)
    returns (merged: CacheMap, rest: CacheMap, threw: bool)
    requires AllUnspent(below) && FlagsOk(cache, below)
    requires view == Overlay(cache, below) && FlagsOk(m, view)
    ensures !threw
    ensures FlagsOk(merged, below) && Overlay(merged, below) == Overlay(m, view)
    ensures rest == Clean(m, {})
  {
    merged, rest, threw := cache, m, false;
    var todo := m.Keys;
    assert Overlay(m - todo, view) == view;
    while todo != {}
      invariant todo <= m.Keys
      invariant rest == Clean(m, todo)
      invariant FlagsOk(merged, below)
      invariant Overlay(merged, below) == Overlay(m - todo, view)
      decreases todo
    {
      var o :| o in todo;
      var e := m[o];
      MergeStep(m, todo, o, view);
      assert EntryOk(e, o, view);
      assert o in merged ==> EntryOk(merged[o], o, below);
      if e.isDirty {
        if o !in merged {
          if !(e.isFresh && e.coin.IsSpent()) {
            WriteStep(merged, below, o, Entry(e.coin, true, e.isFresh));
            merged := merged[o := Entry(e.coin, true, e.isFresh)];
          }
        } else {
          if e.isFresh && !merged[o].coin.IsSpent() {
            assert false;
            return merged, rest, true;
          }
          if merged[o].isFresh && e.coin.IsSpent() {
            DropFreshStep(merged, below, o);
            merged := merged - {o};
          } else {
            WriteStep(merged, below, o, Entry(e.coin, true, merged[o].isFresh));
            merged := merged[o := Entry(e.coin, true, merged[o].isFresh)];
          }
        }
        rest := rest - {o};
      }
      todo := todo - {o};
    }
    assert m - todo == m;
  }

  /** A cache over `base`, or over the database when `base` is null. */
  class CoinsViewCache {
    const base: CoinsViewCache?
    const db: Database
    var coins: CacheMap
    var hashBlock: BlockHash

    ghost var view: Utxo         // the unspent coins this cache stands for
    ghost var below: seq<Utxo>   // the views under it, nearest first, the database last
    ghost var best: BlockHash    // its own best block, or the first non-null one below

    ghost const Repr: set<object>
    ghost const depth: nat

    ghost predicate Valid()
      reads this, Repr
      decreases depth
      ensures Valid() ==> this in Repr && |below| > 0 && AllUnspent(below[0]) && AllUnspent(view)
    {
      && this in Repr
      && (if base == null then
            db in Repr && AllUnspent(db.coins) && below == [db.coins]
          else
            && depth == base.depth + 1 && base in Repr && base.Repr < Repr && this !in base.Repr && base.Valid()
            && below == [base.view] + base.below)
      && FlagsOk(coins, below[0])
      && view == Overlay(coins, below[0])
      && best == if hashBlock != NULL_HASH then hashBlock else BestUnder()
    }

    /** The best block of the view below. */
    ghost function BestUnder(): (h: BlockHash)
      reads if base == null then {db as object} else {base}
    {
      if base == null then db.best else base.best
    }

    constructor (base: CoinsViewCache?, db: Database)
      requires base != null ==> base.Valid()
      requires base == null ==> AllUnspent(db.coins)
      ensures Valid()
      ensures this.base == base && this.db == db
      ensures Repr == {this} + if base == null then {db} else base.Repr
      ensures below == if base == null then [db.coins] else [base.view] + base.below
      ensures view == below[0]
      ensures best == if base == null then db.best else base.best
    {
      this.base := base;
      this.db := db;
      coins := map[];
      hashBlock := NULL_HASH;
      Repr := {this} + if base == null then {db} else base.Repr;
      depth := if base == null then 0 else base.depth + 1;
      below := if base == null then [db.coins] else [base.view] + base.below;
      view := if base == null then db.coins else base.view;
      best := if base == null then db.best else base.best;
      new;
      CleanEntriesAreInvisible(coins, below[0]);
    }

    /** Looks `o` up here, pulling it in from below when absent. */
    method FetchCoin(o: OutPoint) returns (found: bool)
      requires Valid()
      modifies Repr
      decreases depth, 1
      ensures Valid() && view == old(view) && below == old(below) && best == old(best)
      ensures found <==> o in coins
      ensures found ==> Sees(view, o, coins[o].coin)
      ensures !found ==> o !in view
      ensures coins == old(coins) || (o !in old(coins) && found && coins == old(coins)[o := coins[o]])
    {
      if o in coins {
        assert EntryOk(coins[o], o, below[0]);
        return true;
      }
      var ok, tmp := BaseGetCoin(o);
      if !ok {
        return false;
      }
      FetchStep(coins, below[0], o, tmp);
      coins := coins[o := Entry(tmp, false, tmp.IsSpent())];
      return true;
    }

    /** The virtual call `base->GetCoin`. */
    method BaseGetCoin(o: OutPoint) returns (found: bool, coin: Coin)
      requires Valid()
      modifies Repr - {this}
      decreases depth, 0
      ensures Valid()
      ensures found ==> Sees(below[0], o, coin)
      ensures !found ==> o !in below[0] && coin == EMPTY_COIN
    {
      if base == null {
        found := o in db.coins;
        coin := if found then db.coins[o] else EMPTY_COIN;
      } else {
        found, coin := base.GetCoin(o);
      }
    }

    method GetCoin(o: OutPoint) returns (found: bool, coin: Coin)
      requires Valid()
      modifies Repr
      decreases depth, 2
      ensures Valid() && view == old(view) && below == old(below) && best == old(best)
      ensures found ==> Sees(view, o, coin)
      ensures !found ==> o !in view && coin == EMPTY_COIN
    {
      found := FetchCoin(o);
      coin := if found then coins[o].coin else EMPTY_COIN;
    }

    method HaveCoin(o: OutPoint) returns (have: bool)
      requires Valid()
      modifies Repr
      ensures Valid() && view == old(view) && below == old(below) && best == old(best)
      ensures have <==> o in view
    {
      var found := FetchCoin(o);
      have := found && !coins[o].coin.IsSpent();
    }

    /** Adds a coin.  The flags stay truthful exactly when the caller keeps the documented rule: without
        `overwrite`, no unspent coin may be visible (unless the call does nothing or throws). */
    method AddCoin(o: OutPoint, coin: Coin, overwrite: bool) returns (threw: bool)
      requires Valid()
      requires !coin.IsSpent()
      modifies this
      ensures threw <==> !overwrite && !coin.out.IsUnspendable() && o in old(coins) && !old(coins)[o].coin.IsSpent()
      ensures Valid() <==> threw || coin.out.IsUnspendable() || overwrite || o !in old(view)
      ensures below == old(below) && best == old(best)
      ensures view == if threw || coin.out.IsUnspendable() then old(view) else old(view)[o := coin]
    {
      threw := false;
      if coin.out.IsUnspendable() {
        return;
      }
      var e := if o in coins then coins[o] else Entry(EMPTY_COIN, false, false);
      var becomesFresh := false;
      if !overwrite {
        if !e.coin.IsSpent() {
          return true;
        }
        becomesFresh := !e.isDirty;
      }
      assert o in coins ==> EntryOk(coins[o], o, below[0]);
      WriteStep(coins, below[0], o, Entry(coin, true, e.isFresh || becomesFresh));
      coins := coins[o := Entry(coin, true, e.isFresh || becomesFresh)];
      view := view[o := coin];
    }

    /** Spends a coin; `moved` is what the caller gets to keep. */
    method SpendCoin(o: OutPoint) returns (spent: bool, moved: Coin)
      requires Valid()
      modifies Repr
      ensures Valid() && below == old(below) && best == old(best)
      ensures view == Without(old(view), o)
      ensures spent <==> o in old(view)
      ensures if spent then moved == old(view)[o] else moved.IsSpent()
    {
      var found := FetchCoin(o);
      if !found {
        return false, EMPTY_COIN;
      }
      assert EntryOk(coins[o], o, below[0]);
      var e := coins[o];
      spent := !e.coin.IsSpent();
      moved := e.coin;
      if e.isFresh {
        DropFreshStep(coins, below[0], o);
        coins := coins - {o};
      } else {
        WriteStep(coins, below[0], o, Entry(EMPTY_COIN, true, false));
        coins := coins[o := Entry(EMPTY_COIN, true, false)];
      }
      view := Without(view, o);
    }

    /** Takes a child's dirty entries.  `threw` models the logic_error for a misapplied FRESH flag. */
    method BatchWrite(m: CacheMap, hash: BlockHash) returns (rest: CacheMap, threw: bool)
      requires Valid()
      requires FlagsOk(m, view)
      modifies this
      ensures Valid()
      ensures !threw
      ensures below == old(below) && view == Overlay(m, old(view))
      ensures hashBlock == hash && best == if hash != NULL_HASH then hash else old(BestUnder())
      ensures rest == Clean(m, {})
    {
      var merged;
      merged, rest, threw := MergeChild(coins, m, below[0], view);
      coins := merged;
      view := Overlay(m, view);
      hashBlock := hash;
      best := if hash != NULL_HASH then hash else BestUnder();
    }

    /** The virtual call `base->BatchWrite(cacheCoins, hashBlock, ...)`; `keep` is the database's choice. */
    method BaseBatchWrite(keep: bool) returns (rest: CacheMap, threw: bool)
      requires Valid()
      modifies Repr - {this}
      ensures !threw
      ensures base == null ==> AllUnspent(db.coins) && db.coins == Overlay(coins, old(below)[0])
      ensures base == null ==> db.best == if hashBlock == NULL_HASH then old(db.best) else hashBlock
      ensures base != null ==> base.Valid() && base.view == Overlay(coins, old(below)[0])
      ensures base != null ==> base.below == old(base.below)
      ensures base != null ==> base.best == if hashBlock != NULL_HASH then hashBlock else old(base.BestUnder())
      ensures FlagsOk(rest, Overlay(coins, old(below)[0]))
      ensures forall o :: o in rest ==> !rest[o].isDirty
    {
      threw := false;
      if base == null {
        rest := db.BatchWrite(coins, hashBlock, keep);
      } else {
        CleanEntriesSurviveWriteBack(coins, below[0]);
        rest, threw := base.BatchWrite(coins, hashBlock);
      }
    }

    /** Pushes this cache's changes one level down. */
    method Flush(keep: bool) returns (threw: bool)
      requires Valid()
      modifies Repr
      ensures Valid() && !threw
      ensures view == old(view) && below == [old(view)] + old(below)[1..]
      ensures forall o :: o in coins ==> !coins[o].isDirty
      ensures hashBlock == old(hashBlock) && BestUnder() == best
      ensures best == old(best) <==>
                hashBlock != NULL_HASH || base == null || old(base.best) == old(base.BestUnder())
    {
      var rest;
      rest, threw := BaseBatchWrite(keep);
      CleanEntriesAreInvisible(rest, view);
      coins := rest;
      below := [view] + below[1..];
      best := if hashBlock != NULL_HASH then hashBlock else BestUnder();
    }

    method Uncache(o: OutPoint)
      requires Valid()
      modifies this
      ensures Valid() && view == old(view) && below == old(below) && best == old(best)
      ensures coins == if o in old(coins) && !old(coins)[o].isDirty && !old(coins)[o].isFresh
                       then old(coins) - {o} else old(coins)
    {
      if o in coins && !coins[o].isDirty && !coins[o].isFresh {
        assert EntryOk(coins[o], o, below[0]);
        DropCleanStep(coins, below[0], {o});
        coins := coins - {o};
      }
    }

    /** Drops unmodified entries in map order until memory use is low enough; both the order and the moment
        to stop are left open. */
    method Trim()
      requires Valid()
      modifies this
      ensures Valid() && view == old(view) && below == old(below) && best == old(best)
      ensures forall o :: o in coins ==> o in old(coins) && coins[o] == old(coins)[o]
      ensures forall o :: o in old(coins) && (old(coins)[o].isDirty || old(coins)[o].isFresh) ==> o in coins
    {
      var kept, todo := coins, coins.Keys;
      while todo != {}
        invariant todo <= kept.Keys <= coins.Keys
        invariant forall o :: o in kept ==> kept[o] == coins[o]
        invariant forall o :: o in coins && o !in kept ==> !coins[o].isDirty && !coins[o].isFresh
        decreases todo
      {
        if * {
          break;
        }
        var o :| o in todo;
        if !coins[o].isDirty && !coins[o].isFresh {
          kept := kept - {o};
        }
        todo := todo - {o};
      }
      DropCleanStep(coins, below[0], coins.Keys - kept.Keys);
      assert kept == coins - (coins.Keys - kept.Keys);
      coins := kept;
    }

    method GetBestBlock() returns (h: BlockHash)
      requires Valid()
      modifies Repr
      decreases depth
      ensures Valid() && view == old(view) && below == old(below) && best == old(best)
      ensures h == best
    {
      if hashBlock == NULL_HASH {
        if base == null {
          hashBlock := db.best;
        } else {
          var b := base.GetBestBlock();
          hashBlock := b;
        }
      }
      h := hashBlock;
    }

    method SetBestBlock(h: BlockHash)
      requires Valid()
      modifies this
      ensures Valid() && view == old(view) && below == old(below)
      ensures best == if h != NULL_HASH then h else BestUnder()
    {
      hashBlock := h;
      best := if h != NULL_HASH then h else BestUnder();
    }

    // ----- Whole runs -----

    /** One operation on the stack. */
    method Apply(op: Op) returns (threw: bool)
      requires Valid()
      requires Legal([view] + below, op)
      modifies Repr
      decreases op, 0
      ensures Valid() && !threw
      ensures [view] + below == AfterOp(old([view] + below), op)
    {
      threw := false;
      match op
      case Add(o, coin, overwrite) =>
        threw := AddCoin(o, coin, overwrite);
      case Spend(o) =>
        var _, _ := SpendCoin(o);
      case Get(o) =>
        var _, _ := GetCoin(o);
      case Have(o) =>
        var _ := HaveCoin(o);
      case Drop(o) =>
        Uncache(o);
      case TrimCache =>
        Trim();
      case FlushCache(keep) =>
        threw := Flush(keep);
      case Under(inner) =>
        threw := ApplyUnder(inner);
    }

    /** An operation on a cache further down, which leaves the views it is seen through as they are. */
    method ApplyUnder(op: Op) returns (threw: bool)
      requires Valid()
      requires !op.Add? && !op.Spend? && |below| >= 2 && Legal(below, op)
      modifies Repr
      decreases op, 1
      ensures Valid() && !threw
      ensures view == old(view) && below == AfterOp(old(below), op)
    {
      LowerOpsKeepTheTop(below, op);
      threw := base.Apply(op);
      below := [base.view] + base.below;
      best := if hashBlock != NULL_HASH then hashBlock else BestUnder();
    }

    /** Any legal run: every view of the stack stays the plain map the run describes, and nothing throws. */
    method Run(ops: seq<Op>) returns (threw: bool)
      requires Valid()
      requires LegalRun([view] + below, ops)
      modifies Repr
      ensures Valid() && !threw
      ensures [view] + below == AfterRun(old([view] + below), ops)
    {
      threw := false;
      ghost var start := [view] + below;
      for i := 0 to |ops|
        invariant Valid() && !threw
        invariant LegalRun([view] + below, ops[i..])
        invariant AfterRun([view] + below, ops[i..]) == AfterRun(start, ops)
      {
        assert ops[i..][0] == ops[i] && ops[i..][1..] == ops[i + 1..];
        threw := Apply(ops[i]);
      }
    }
  }
}
