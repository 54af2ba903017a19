/** The signature cache: a cuckoo table with eight locations per element, bit-packed garbage-collection flags,
    and an epoch counter that decides when old entries become garbage. */
module Cuckoo {
  import Arith
  import opened Basics
  import opened PackedBits

  const TWO32: int := 0x1_0000_0000
  const INVALID: int := 0xffff_ffff

  type uint32 = x: int | 0 <= x < TWO32

  // ----- Collection flags -----

  /** The slots that are not garbage. */
  ghost function Live(mem: seq<bv8>, n: nat): (r: set<nat>)
    requires n <= 8 * |mem|
  {
    set i: nat | i < n && !BitIsSet(mem, i)
  }

  lemma LiveAfterSet(mem: seq<bv8>, n: nat, s: nat)
    requires s < n <= 8 * |mem|
    ensures Live(BitSet(mem, s), n) == Live(mem, n) - {s}
  {
    forall t: nat | t < n ensures t in Live(BitSet(mem, s), n) <==> t in Live(mem, n) - {s} {
      FlagWrites(mem, s, t);
    }
  }

  lemma LiveAfterUnset(mem: seq<bv8>, n: nat, s: nat)
    requires s < n <= 8 * |mem|
    ensures Live(BitUnset(mem, s), n) == Live(mem, n) + {s}
  {
    forall t: nat | t < n ensures t in Live(BitUnset(mem, s), n) <==> t in Live(mem, n) + {s} {
      FlagWrites(mem, s, t);
    }
  }

  // ----- Locations -----

  /** Where an element may sit: eight slots, each the top part of a 32-bit hash scaled to the table. */
  function Locs<E>(hash: (nat, E) -> uint32, nSize: nat, e: E): (l: seq<nat>)
    requires 0 < nSize < TWO32
    ensures |l| == 8
    ensures forall k :: 0 <= k < 8 ==> l[k] < nSize
  {
    [Scaled(hash(0, e), nSize), Scaled(hash(1, e), nSize), Scaled(hash(2, e), nSize), Scaled(hash(3, e), nSize),
     Scaled(hash(4, e), nSize), Scaled(hash(5, e), nSize), Scaled(hash(6, e), nSize), Scaled(hash(7, e), nSize)]
  }

  function Scaled(h: uint32, nSize: nat): (loc: nat)
    requires 0 < nSize < TWO32
    ensures loc < nSize
  {
    ScaledBound(h, nSize);
    (h * nSize) / TWO32
  }

  lemma ScaledBound(h: uint32, nSize: nat)
    requires 0 < nSize < TWO32
    ensures 0 <= (h * nSize) / TWO32 < nSize
  {
    Arith.MulLe(h, TWO32 - 1, nSize);
    var q := (h * nSize) / TWO32;
    assert h * nSize < TWO32 * nSize;
  }

  // ----- What the table holds -----

  /** The real elements in the table. */
  ghost function Stored<E>(t: seq<E>, default: E): (s: set<E>) {
    set i | 0 <= i < |t| && t[i] != default :: t[i]
  }

  /** The elements in the given slots. */
  ghost function Alive<E>(t: seq<E>, live: set<nat>): (s: set<E>) {
    set i | i in live && i < |t| :: t[i]
  }

  lemma AlivePut<E>(t: seq<E>, live: set<nat>, e: E, loc: nat)
    requires loc < |t| && loc !in live
    ensures Alive(t[loc := e], live + {loc}) == Alive(t, live) + {e}
  {
    var t' := t[loc := e];
    assert t'[loc] in Alive(t', live + {loc});
    forall i | i in live && i < |t| ensures t[i] in Alive(t', live + {loc}) { assert t'[i] == t[i]; }
    forall i | i in live + {loc} && i < |t| ensures t'[i] in Alive(t, live) + {e} {
      assert i != loc ==> t[i] in Alive(t, live);
    }
  }

  lemma AliveSwap<E>(t: seq<E>, live: set<nat>, e: E, loc: nat)
    requires loc < |t| && loc in live
    ensures Alive(t[loc := e], live) + {t[loc]} == Alive(t, live) + {e}
  {
    AlivePut(t, live - {loc}, e, loc);
    AlivePut(t, live - {loc}, t[loc], loc);
    assert live - {loc} + {loc} == live && t[loc := t[loc]] == t;
  }

  lemma AliveMore<E>(t: seq<E>, live: set<nat>, e: E)
    requires exists i :: 0 <= i < |t| && t[i] == e
    ensures Alive(t, live + Holding(t, e)) == Alive(t, live) + {e}
  {
    var i :| 0 <= i < |t| && t[i] == e;
    assert i in Holding(t, e) && t[i] in Alive(t, live + Holding(t, e));
    forall i | i in live && i < |t| ensures t[i] in Alive(t, live + Holding(t, e)) {
      assert i in live + Holding(t, e);
    }
    forall i | i in live + Holding(t, e) && i < |t| ensures t[i] in Alive(t, live) + {e} {
      assert i in live ==> t[i] in Alive(t, live);
    }
  }

  lemma StoredSomewhere<E>(t: seq<E>, default: E, e: E)
    requires e in Stored(t, default)
    ensures exists i :: 0 <= i < |t| && t[i] == e
  {
  }

  lemma AliveStored<E>(t: seq<E>, default: E, hash: (nat, E) -> uint32, live: set<nat>)
    requires 0 < |t| < TWO32 && TableOk(t, default, hash, live)
    ensures Alive(t, live) <= Stored(t, default)
  {
    forall i | i in live && i < |t| ensures t[i] in Stored(t, default) {
    }
  }

  /** Every real element sits at one of its own slots, once; only real elements are live. */
  ghost predicate TableOk<E>(t: seq<E>, default: E, hash: (nat, E) -> uint32, live: set<nat>)
    requires 0 < |t| < TWO32
  {
    && (forall i :: 0 <= i < |t| && t[i] != default ==> i in Locs(hash, |t|, t[i]))
    && (forall i, j :: 0 <= i < j < |t| && t[i] == t[j] ==> t[i] == default)
    && (forall i :: i in live ==> i < |t| && t[i] != default)
  }

  /** Putting `e`, which is nowhere in the table, into one of its slots. */
  lemma PutStep<E>(t: seq<E>, default: E, hash: (nat, E) -> uint32, live: set<nat>, e: E, loc: nat)
    requires 0 < |t| < TWO32 && TableOk(t, default, hash, live)
    requires e != default && e !in Stored(t, default)
    requires loc in Locs(hash, |t|, e)
    ensures loc < |t|
    ensures TableOk(t[loc := e], default, hash, live + {loc})
    ensures Stored(t[loc := e], default) == Stored(t, default) + {e} - {t[loc]}
    ensures t[loc] !in Stored(t[loc := e], default)
  {
    var t' := t[loc := e];
    assert forall i :: 0 <= i < |t| ==> t[i] != e by {
      assert forall i :: 0 <= i < |t| && t[i] != default ==> t[i] in Stored(t, default);
    }
    assert t'[loc] == e;
    forall x | x in Stored(t, default) + {e} - {t[loc]} ensures x in Stored(t', default) {
      if x != e {
        var i :| 0 <= i < |t| && t[i] != default && t[i] == x;
        assert t'[i] == x;
      }
    }
    forall x | x in Stored(t', default) ensures x in Stored(t, default) + {e} - {t[loc]} {
      var i :| 0 <= i < |t'| && t'[i] != default && t'[i] == x;
      if i != loc { assert t[i] == x; }
    }
  }

  /** Looking at an element's own slots is looking at the whole table. */
  lemma FoundIffStored<E>(t: seq<E>, default: E, hash: (nat, E) -> uint32, live: set<nat>, e: E)
    requires 0 < |t| < TWO32 && TableOk(t, default, hash, live)
    requires e != default
    ensures e in Stored(t, default) <==> exists k :: 0 <= k < 8 && t[Locs(hash, |t|, e)[k]] == e
  {
    var l := Locs(hash, |t|, e);
    if e in Stored(t, default) {
      var i :| 0 <= i < |t| && t[i] != default && t[i] == e;
      var k :| 0 <= k < |l| && l[k] == i;
    }
    if k :| 0 <= k < 8 && t[l[k]] == e {
      assert t[l[k]] in Stored(t, default);
    }
  }

  // ----- Epochs -----

  /** Live slots of the current epoch. */
  ghost function Young(live: set<nat>, epoch: seq<bool>): (s: set<nat>) {
    set i | i in live && i < |epoch| && epoch[i]
  }

  /** Live slots of the previous epoch. */
  ghost function Aged(live: set<nat>, epoch: seq<bool>): (s: set<nat>) {
    set i | i in live && i < |epoch| && !epoch[i]
  }

  function Bound(nEpochSize: nat): nat {
    nEpochSize + nEpochSize / 16 + 1
  }

  lemma EpochWrite(live: set<nat>, epoch: seq<bool>, loc: nat, b: bool)
    requires loc < |epoch|
    ensures Young(live + {loc}, epoch[loc := b]) == if b then Young(live, epoch) + {loc} else Young(live, epoch) - {loc}
    ensures Aged(live + {loc}, epoch[loc := b]) == if b then Aged(live, epoch) - {loc} else Aged(live, epoch) + {loc}
  {
  }

  lemma EpochDrop(live: set<nat>, epoch: seq<bool>, loc: nat)
    ensures Young(live - {loc}, epoch) == Young(live, epoch) - {loc}
    ensures Aged(live - {loc}, epoch) == Aged(live, epoch) - {loc}
  {
  }

  // ----- The cache -----

  class Cache<Element(==)> {
    const default: Element
    const hash: (nat, Element) -> uint32
    const nSize: nat
    const depthLimit: nat
    const nEpochSize: nat

    var vTable: seq<Element>
    var collected: seq<bv8>
    var vEpoch: seq<bool>
    var counter: nat

    ghost predicate Shape()
      reads this
    {
      && depthLimit > 0
      && 2 <= nSize < TWO32 && nEpochSize >= 1
      && |vTable| == nSize && |vEpoch| == nSize && nSize <= 8 * |collected|
    }

    ghost function LiveSlots(): (s: set<nat>)
      requires Shape()
      reads this
    {
      Live(collected, nSize)
    }

    ghost predicate Valid()
      reads this
    {
      && Shape()
      && TableOk(vTable, default, hash, LiveSlots())
      && |Young(LiveSlots(), vEpoch)| + counter <= Bound(nEpochSize)
      && |Aged(LiveSlots(), vEpoch)| <= Bound(nEpochSize)
    }

    /** The set-up for 2^depth slots; all slots start as garbage.  45 percent of the table is an epoch, computed in
        32-bit arithmetic. */
    constructor (default: Element, hash: (nat, Element) -> uint32, depth: nat)
      requires 1 <= depth <= 31
      ensures Valid()
      ensures this.default == default && this.hash == hash && nSize == Arith.Pow2(depth) && depthLimit == depth
      ensures Stored(vTable, default) == {}
      ensures nEpochSize == EpochSize(nSize)
    {
      Arith.Pow2Values();
      Arith.Pow2Mono(1, depth);
      Arith.Pow2Mono(depth, 31);
      this.default := default;
      this.hash := hash;
      depthLimit := depth;
      nSize := Arith.Pow2(depth);
      vTable := seq(Arith.Pow2(depth), i => default);
      collected := seq((Arith.Pow2(depth) + 7) / 8, i => 0xff);
      vEpoch := seq(Arith.Pow2(depth), i => false);
      nEpochSize := EpochSize(Arith.Pow2(depth));
      counter := EpochSize(Arith.Pow2(depth));
      new;
      AllCollected(collected, nSize);
      assert Young(LiveSlots(), vEpoch) == {} && Aged(LiveSlots(), vEpoch) == {};
    }

    /** Is `e` found, and with `erase`, is its slot given up? */
    method Contains(e: Element, erase: bool) returns (found: bool)
      requires Valid()
      modifies this
      ensures Valid()
      ensures vTable == old(vTable) && vEpoch == old(vEpoch) && counter == old(counter)
      ensures e != default ==> (found <==> e in Stored(vTable, default))
      ensures LiveSlots() == old(LiveSlots()) - if erase && found then Holding(vTable, e) else {}
    {
      var locs := Locs(hash, nSize, e);
      if e != default { FoundIffStored(vTable, default, hash, LiveSlots(), e); }
      for k := 0 to 8
        invariant forall j :: 0 <= j < k ==> vTable[locs[j]] != e
        invariant Valid() && vTable == old(vTable) && vEpoch == old(vEpoch) && counter == old(counter)
        invariant collected == old(collected)
      {
        if vTable[locs[k]] == e {
          if erase {
            HoldingIs(vTable, default, hash, LiveSlots(), locs[k]);
            LiveAfterSet(collected, nSize, locs[k]);
            EpochDrop(LiveSlots(), vEpoch, locs[k]);
            collected := BitSet(collected, locs[k]);
          }
          return true;
        }
      }
      return false;
    }

    /** The scan: how many live entries belong to the current epoch. */
    method CountYoung() returns (count: nat)
      requires Shape()
      ensures count == |Young(LiveSlots(), vEpoch)|
    {
      count := 0;
      ghost var young := Young(LiveSlots(), vEpoch);
      for i := 0 to nSize
        invariant count == |Below(young, i)|
      {
        BelowStep(young, i);
        assert i in young <==> vEpoch[i] && !BitIsSet(collected, i);
        if vEpoch[i] && !BitIsSet(collected, i) {
          count := count + 1;
        }
      }
      assert Below(young, nSize) == young;
    }

    /** Before every insert: count down, or scan and perhaps start a new epoch. */
    method EpochCheck()
      requires Valid()
      modifies this
      ensures Shape() && TableOk(vTable, default, hash, LiveSlots())
      ensures vTable == old(vTable)
      ensures |Young(LiveSlots(), vEpoch)| + counter < Bound(nEpochSize)
      ensures |Aged(LiveSlots(), vEpoch)| <= Bound(nEpochSize)
      ensures old(counter) > 0 || |Young(old(LiveSlots()), old(vEpoch))| < nEpochSize ==>
                LiveSlots() == old(LiveSlots()) && vEpoch == old(vEpoch)
      ensures old(counter) == 0 && |Young(old(LiveSlots()), old(vEpoch))| >= nEpochSize ==>
                LiveSlots() == Young(old(LiveSlots()), old(vEpoch)) && counter == nEpochSize
                && forall i :: 0 <= i < nSize ==> !vEpoch[i]
    {
      if counter != 0 {
        counter := counter - 1;
        return;
      }
      var count := CountYoung();
      if count >= nEpochSize {
        Age();
        counter := nEpochSize;
      } else {
        counter := Max(1, Max(nEpochSize / 16, nEpochSize - count));
      }
    }

    /** A new epoch: old entries become garbage, current ones become old. */
    method Age()
      requires Shape() && TableOk(vTable, default, hash, LiveSlots())
      modifies this`collected, this`vEpoch
      ensures Shape() && TableOk(vTable, default, hash, LiveSlots())
      ensures LiveSlots() == Young(old(LiveSlots()), old(vEpoch))
      ensures forall i :: 0 <= i < nSize ==> !vEpoch[i]
      ensures Young(LiveSlots(), vEpoch) == {} && Aged(LiveSlots(), vEpoch) == LiveSlots()
    {
      ghost var live, epoch := LiveSlots(), vEpoch;
      for i := 0 to nSize
        invariant Shape()
        invariant forall j :: 0 <= j < nSize ==> vEpoch[j] == (j >= i && epoch[j])
        invariant LiveSlots() == set j | j in live && (j < i ==> epoch[j])
      {
        if vEpoch[i] {
          vEpoch := vEpoch[i := false];
        } else {
          LiveAfterSet(collected, nSize, i);
          collected := BitSet(collected, i);
        }
      }
    }

    /** The first garbage slot among `locs`, or 8. */
    method FindFree(locs: seq<nat>) returns (k: nat)
      requires Shape() && |locs| == 8 && forall j :: 0 <= j < 8 ==> locs[j] < nSize
      ensures k <= 8
      ensures forall j :: 0 <= j < k ==> locs[j] in LiveSlots()
      ensures k < 8 ==> locs[k] !in LiveSlots()
    {
      for i := 0 to 8
        invariant forall j :: 0 <= j < i ==> locs[j] in LiveSlots()
      {
        if BitIsSet(collected, locs[i]) {
          return i;
        }
      }
      return 8;
    }

    /** Takes the first garbage slot among the locations of `e`, if there is one. */
    method PlaceIfFree(e: Element, locs: seq<nat>, epoch: bool) returns (done: bool, ghost lost: Element)
      requires Shape() && TableOk(vTable, default, hash, LiveSlots())
      requires e != default && e !in Stored(vTable, default) && locs == Locs(hash, nSize, e)
      modifies this`vTable, this`collected, this`vEpoch
      ensures Shape() && TableOk(vTable, default, hash, LiveSlots())
      ensures done <==> exists k :: 0 <= k < 8 && locs[k] !in old(LiveSlots())
      ensures !done ==> vTable == old(vTable) && collected == old(collected) && vEpoch == old(vEpoch)
      ensures done ==> Stored(vTable, default) == old(Stored(vTable, default)) + {e} - {lost}
      ensures done ==> Alive(vTable, LiveSlots()) == Alive(old(vTable), old(LiveSlots())) + {e}
      ensures done ==> |Young(LiveSlots(), vEpoch)| == |Young(old(LiveSlots()), old(vEpoch))| + Bit(epoch)
      ensures done ==> |Aged(LiveSlots(), vEpoch)| == |Aged(old(LiveSlots()), old(vEpoch))| + Bit(!epoch)
    {
      var k := FindFree(locs);
      if k == 8 {
        return false, e;
      }
      PutStep(vTable, default, hash, LiveSlots(), e, locs[k]);
      LiveAfterUnset(collected, nSize, locs[k]);
      EpochNew(LiveSlots(), vEpoch, locs[k], epoch);
      AlivePut(vTable, LiveSlots(), e, locs[k]);
      lost := vTable[locs[k]];
      vTable := vTable[locs[k] := e];
      collected := BitUnset(collected, locs[k]);
      vEpoch := vEpoch[locs[k] := epoch];
      return true, lost;
    }

    /** Inserts `e`, moving other elements along a chain of at most `depthLimit` evictions.  Everything that was
        stored, and `e`, is still stored, except at most one element (`lost`).  Of the elements still live after the
        epoch check (in the slots `live`), one is given up only if the chain never reached a free slot (`full`). */
    method Insert(e: Element) returns (ghost lost: Element, ghost live: set<nat>, ghost full: bool)
      requires Valid() && e != default
      modifies this
      ensures Valid()
      ensures Stored(vTable, default) == old(Stored(vTable, default)) + {e} - {lost}
      ensures live == if old(counter) == 0 && |Young(old(LiveSlots()), old(vEpoch))| >= nEpochSize
                      then Young(old(LiveSlots()), old(vEpoch)) else old(LiveSlots())
      ensures Alive(vTable, LiveSlots()) == Alive(old(vTable), live) + {e} - if full then {lost} else {}
      ensures full ==> forall k :: 0 <= k < 8 ==> Locs(hash, nSize, e)[k] in live
    {
      hide TableOk, Alive, Young, Aged, Holding;
      EpochCheck();
      live, full := LiveSlots(), false;
      var locs := Locs(hash, nSize, e);
      var kept := KeepIfPresent(e, locs);
      if kept {
        StoredSomewhere(vTable, default, e);
        AliveMore(vTable, live, e);
        return default, live, false;
      }
      lost, full := Displace(e, locs);
    }

    /** The eviction chain of an insert. */
    method Displace(e: Element, locs0: seq<nat>) returns (ghost lost: Element, ghost full: bool)
      requires Shape() && TableOk(vTable, default, hash, LiveSlots())
      requires e != default && e !in Stored(vTable, default) && locs0 == Locs(hash, nSize, e)
      modifies this`vTable, this`collected, this`vEpoch
      ensures Shape() && TableOk(vTable, default, hash, LiveSlots())
      ensures Stored(vTable, default) == old(Stored(vTable, default)) + {e} - {lost}
      ensures Alive(vTable, LiveSlots()) == Alive(old(vTable), old(LiveSlots())) + {e} - if full then {lost} else {}
      ensures full ==> forall k :: 0 <= k < 8 ==> locs0[k] in old(LiveSlots())
      ensures full && depthLimit == 1 ==> lost == old(vTable)[locs0[1]] && vTable == old(vTable)[locs0[1] := e]
      ensures |Young(LiveSlots(), vEpoch)| <= |Young(old(LiveSlots()), old(vEpoch))| + 1
      ensures |Aged(LiveSlots(), vEpoch)| <= |Aged(old(LiveSlots()), old(vEpoch))|
    {
      hide TableOk, Stored, Alive, Young, Aged;
      FirstVictim(hash, nSize, e);
      var locs := locs0;
      var hand, handEpoch, lastLoc := e, true, INVALID;
      full := false;
      for depth := 0 to depthLimit
        invariant Shape() && TableOk(vTable, default, hash, LiveSlots())
        invariant hand != default && hand !in Stored(vTable, default) && locs == Locs(hash, nSize, hand)
        invariant Stored(vTable, default) + {hand} == old(Stored(vTable, default)) + {e}
        invariant Alive(vTable, LiveSlots()) + {hand} == Alive(old(vTable), old(LiveSlots())) + {e}
        invariant depth == 0 ==> locs == locs0 && LiveSlots() == old(LiveSlots())
        invariant depth == 0 ==> hand == e && lastLoc == INVALID && vTable == old(vTable)
        invariant depth == 1 ==> hand == old(vTable)[locs0[1]] && vTable == old(vTable)[locs0[1] := e]
        invariant depth > 0 ==> forall k :: 0 <= k < 8 ==> locs0[k] in old(LiveSlots())
        invariant |Young(LiveSlots(), vEpoch)| + Bit(handEpoch) == old(|Young(LiveSlots(), vEpoch)|) + 1
        invariant |Aged(LiveSlots(), vEpoch)| + Bit(!handEpoch) == old(|Aged(LiveSlots(), vEpoch)|)
      {
        var done;
        done, lost := PlaceIfFree(hand, locs, handEpoch);
        if done {
          return;
        }
        lastLoc := Victim(locs, lastLoc);
        hand, handEpoch := Evict(hand, handEpoch, lastLoc);
        locs := Locs(hash, nSize, hand);
      }
      AliveStored(vTable, default, hash, LiveSlots());
      lost, full := hand, true;
    }

    /** Any run of inserts and lookups: each insert costs at most one stored element, and the live entries never
        exceed the bound, although the table is scanned only when the counter runs out. */
    method Run(ops: seq<Op<Element>>)
      requires Valid() && forall i :: 0 <= i < |ops| ==> ops[i].e != default
      modifies this
      ensures Valid()
      ensures |Young(LiveSlots(), vEpoch)| <= Bound(nEpochSize) && |LiveSlots()| <= 2 * Bound(nEpochSize)
      ensures Kept(old(Stored(vTable, default)) + Inserted(ops), Stored(vTable, default), Puts(ops))
    {
      ghost var start := Stored(vTable, default);
      for i := 0 to |ops|
        invariant Valid()
        invariant Kept(start + Inserted(ops[..i]), Stored(vTable, default), Puts(ops[..i]))
      {
        ghost var before := Stored(vTable, default);
        ghost var lost := Apply(ops[i]);
        KeptStep(start, ops, i, before, Stored(vTable, default), lost);
      }
      assert ops[..|ops|] == ops;
      YoungOrAged(LiveSlots(), vEpoch);
    }

    method Apply(op: Op<Element>) returns (ghost lost: Element)
      requires Valid() && op.e != default
      modifies this
      ensures Valid()
      ensures Stored(vTable, default) == old(Stored(vTable, default)) + PutBy(op) - {lost}
      ensures op.Look? ==> Stored(vTable, default) == old(Stored(vTable, default))
    {
      match op
      case Put(e) =>
        ghost var live, full;
        lost, live, full := Insert(e);
      case Look(e, erase) =>
        var _ := Contains(e, erase);
        lost := default;
    }

    /** Swaps the element in hand, with its epoch, for the live one at `loc`. */
    method Evict(hand: Element, handEpoch: bool, loc: nat) returns (out: Element, outEpoch: bool)
      requires Shape() && TableOk(vTable, default, hash, LiveSlots())
      requires hand != default && hand !in Stored(vTable, default)
      requires loc in Locs(hash, nSize, hand) && loc in LiveSlots()
      modifies this`vTable, this`vEpoch
      ensures Shape() && TableOk(vTable, default, hash, LiveSlots())
      ensures out != default && out !in Stored(vTable, default)
      ensures out == old(vTable)[loc] && vTable == old(vTable)[loc := hand]
      ensures Stored(vTable, default) + {out} == old(Stored(vTable, default)) + {hand}
      ensures Alive(vTable, LiveSlots()) + {out} == Alive(old(vTable), LiveSlots()) + {hand}
      ensures |Young(LiveSlots(), vEpoch)| + Bit(outEpoch) == |Young(LiveSlots(), old(vEpoch))| + Bit(handEpoch)
      ensures |Aged(LiveSlots(), vEpoch)| + Bit(!outEpoch) == |Aged(LiveSlots(), old(vEpoch))| + Bit(!handEpoch)
    {
      SwapStep(vTable, default, hash, LiveSlots(), hand, loc);
      EpochSwap(LiveSlots(), vEpoch, loc, handEpoch);
      AliveSwap(vTable, LiveSlots(), hand, loc);
      out, vTable := vTable[loc], vTable[loc := hand];
      outEpoch, vEpoch := vEpoch[loc], vEpoch[loc := handEpoch];
    }

    /** An element that is there already is kept and moved to the current epoch. */
    method KeepIfPresent(e: Element, locs: seq<nat>) returns (kept: bool)
      requires Shape() && TableOk(vTable, default, hash, LiveSlots())
      requires e != default && locs == Locs(hash, nSize, e)
      modifies this`collected, this`vEpoch
      ensures Shape() && TableOk(vTable, default, hash, LiveSlots())
      ensures kept <==> e in Stored(vTable, default)
      ensures !kept ==> collected == old(collected) && vEpoch == old(vEpoch)
      ensures |Young(LiveSlots(), vEpoch)| <= |Young(old(LiveSlots()), old(vEpoch))| + 1
      ensures |Aged(LiveSlots(), vEpoch)| <= |Aged(old(LiveSlots()), old(vEpoch))|
      ensures kept ==> LiveSlots() == old(LiveSlots()) + Holding(vTable, e)
      ensures kept ==> forall i :: 0 <= i < nSize ==> vEpoch[i] == (vTable[i] == e || old(vEpoch)[i])
    {
      FoundIffStored(vTable, default, hash, LiveSlots(), e);
      for k := 0 to 8
        invariant forall j :: 0 <= j < k ==> vTable[locs[j]] != e
        invariant collected == old(collected) && vEpoch == old(vEpoch)
      {
        if vTable[locs[k]] == e {
          LiveAfterUnset(collected, nSize, locs[k]);
          KeepStep(vTable, default, hash, LiveSlots(), vEpoch, locs[k]);
          collected := BitUnset(collected, locs[k]);
          vEpoch := vEpoch[locs[k] := true];
          return true;
        }
      }
      return false;
    }
  }

  datatype Op<E> = Put(e: E) | Look(e: E, erase: bool)

  ghost function PutBy<E>(op: Op<E>): (s: set<E>) {
    if op.Put? then {op.e} else {}
  }

  ghost function Inserted<E>(ops: seq<Op<E>>): (s: set<E>) {
    if ops == [] then {} else Inserted(ops[..|ops| - 1]) + PutBy(ops[|ops| - 1])
  }

  /** All but at most `n` of `all` are stored. */
  ghost predicate Kept<E>(all: set<E>, stored: set<E>, n: nat) {
    stored <= all && |all - stored| <= n
  }

  /** How many of the operations are insertions. */
  ghost function Puts<E>(ops: seq<Op<E>>): (n: nat) {
    if ops == [] then 0 else Puts(ops[..|ops| - 1]) + if ops[|ops| - 1].Put? then 1 else 0
  }

  /** One more insertion loses at most one element, a lookup none. */
  lemma KeptStep<E>(start: set<E>, ops: seq<Op<E>>, i: nat, stored: set<E>, after: set<E>, lost: E)
    requires i < |ops| && Kept(start + Inserted(ops[..i]), stored, Puts(ops[..i]))
    requires after == if ops[i].Put? then stored + {ops[i].e} - {lost} else stored
    ensures Kept(start + Inserted(ops[..i + 1]), after, Puts(ops[..i + 1]))
  {
    assert ops[..i + 1][..i] == ops[..i];
    var all, put := start + Inserted(ops[..i]), PutBy(ops[i]);
    assert start + Inserted(ops[..i + 1]) == all + put;
    if ops[i].Put? {
      OneLost(all, stored, put, lost);
    } else {
      assert all + put == all;
    }
  }

  lemma OneLost<E>(all: set<E>, stored: set<E>, put: set<E>, lost: E)
    ensures |(all + put) - (stored + put - {lost})| <= |all - stored| + 1
  {
    SubsetSize((all + put) - (stored + put - {lost}), (all - stored) + {lost});
  }

  lemma YoungOrAged(live: set<nat>, epoch: seq<bool>)
    requires forall i :: i in live ==> i < |epoch|
    ensures |live| == |Young(live, epoch)| + |Aged(live, epoch)|
  {
    assert live == Young(live, epoch) + Aged(live, epoch);
  }

  function Bit(b: bool): nat { if b then 1 else 0 }

  /** The first index of `x`, or the length when it is absent. */
  function Find(l: seq<nat>, x: int): (k: nat)
    ensures k <= |l|
    ensures k < |l| ==> l[k] == x
    ensures forall j :: 0 <= j < k ==> l[j] != x
  {
    if l == [] then 0 else if l[0] == x then 0
    else
      var rest := Find(l[1..], x);
      assert forall j :: 1 <= j < rest + 1 ==> l[j] == l[1..][j - 1];
      1 + rest
  }

  /** The location whose element makes room: the one behind the last one used. */
  function Victim(locs: seq<nat>, last: int): (loc: nat)
    requires |locs| == 8
    ensures loc in locs
  {
    locs[(1 + Find(locs, last)) % 8]
  }

  /** The first victim stands at the second location, and at the documented first one only if the two coincide. */
  lemma FirstVictim<E>(hash: (nat, E) -> uint32, nSize: nat, e: E)
    requires 0 < nSize < TWO32
    ensures var locs := Locs(hash, nSize, e);
            && Victim(locs, INVALID) == locs[1]
            && (Victim(locs, INVALID) == locs[0] <==> locs[0] == locs[1])
  {
    var locs := Locs(hash, nSize, e);
    assert Find(locs, INVALID) == 8;
  }

  /** A later victim is the element just put in exactly if the location it was put at is repeated right away. */
  lemma NextVictim(locs: seq<nat>, k: nat)
    requires |locs| == 8 && k < 8 && forall j :: 0 <= j < k ==> locs[j] != locs[k]
    ensures Victim(locs, locs[k]) == locs[(k + 1) % 8]
    ensures Victim(locs, locs[k]) == locs[k] <==> locs[(k + 1) % 8] == locs[k]
  {
    assert Find(locs, locs[k]) == k;
  }

  ghost function Below(s: set<nat>, n: nat): (r: set<nat>) {
    set i | i in s && i < n
  }

  lemma BelowStep(s: set<nat>, n: nat)
    ensures Below(s, n + 1) == Below(s, n) + if n in s then {n} else {}
  {
  }

  /** Swapping the element in hand with a live one loses nothing. */
  lemma SwapStep<E>(t: seq<E>, default: E, hash: (nat, E) -> uint32, live: set<nat>, hand: E, loc: nat)
    requires 0 < |t| < TWO32 && TableOk(t, default, hash, live)
    requires hand != default && hand !in Stored(t, default)
    requires loc in Locs(hash, |t|, hand) && loc in live
    ensures TableOk(t[loc := hand], default, hash, live)
    ensures t[loc] != default && t[loc] !in Stored(t[loc := hand], default)
    ensures Stored(t[loc := hand], default) + {t[loc]} == Stored(t, default) + {hand}
  {
    PutStep(t, default, hash, live, hand, loc);
    assert live + {loc} == live;
    assert t[loc] in Stored(t, default);
  }

  /** Keeping the element at `loc`: only its slot changes. */
  lemma KeepStep<E>(t: seq<E>, default: E, hash: (nat, E) -> uint32, live: set<nat>, epoch: seq<bool>, loc: nat)
    requires 0 < |t| < TWO32 && TableOk(t, default, hash, live) && |epoch| == |t|
    requires loc < |t| && t[loc] != default
    ensures TableOk(t, default, hash, live + {loc})
    ensures Holding(t, t[loc]) == {loc}
    ensures |Young(live + {loc}, epoch[loc := true])| <= |Young(live, epoch)| + 1
    ensures |Aged(live + {loc}, epoch[loc := true])| <= |Aged(live, epoch)|
  {
    EpochKeep(live, epoch, loc);
  }

  lemma EpochNew(live: set<nat>, epoch: seq<bool>, loc: nat, b: bool)
    requires loc !in live && loc < |epoch|
    ensures |Young(live + {loc}, epoch[loc := b])| == |Young(live, epoch)| + Bit(b)
    ensures |Aged(live + {loc}, epoch[loc := b])| == |Aged(live, epoch)| + Bit(!b)
  {
    EpochWrite(live, epoch, loc, b);
  }

  lemma EpochKeep(live: set<nat>, epoch: seq<bool>, loc: nat)
    requires loc < |epoch|
    ensures |Young(live + {loc}, epoch[loc := true])| <= |Young(live, epoch)| + 1
    ensures |Aged(live + {loc}, epoch[loc := true])| <= |Aged(live, epoch)|
  {
    EpochWrite(live, epoch, loc, true);
    if loc in Aged(live, epoch) {
      assert |Aged(live, epoch) - {loc}| == |Aged(live, epoch)| - 1;
    } else {
      assert Aged(live, epoch) - {loc} == Aged(live, epoch);
    }
  }

  lemma EpochSwap(live: set<nat>, epoch: seq<bool>, loc: nat, b: bool)
    requires loc in live && loc < |epoch|
    ensures |Young(live, epoch[loc := b])| + Bit(epoch[loc]) == |Young(live, epoch)| + Bit(b)
    ensures |Aged(live, epoch[loc := b])| + Bit(!epoch[loc]) == |Aged(live, epoch)| + Bit(!b)
  {
    assert live + {loc} == live;
    EpochWrite(live, epoch, loc, b);
    if epoch[loc] == b {
      assert epoch[loc := b] == epoch;
    } else if b {
      assert loc in Aged(live, epoch) && loc !in Young(live, epoch);
    } else {
      assert loc in Young(live, epoch) && loc !in Aged(live, epoch);
    }
  }

  /** The largest of 1 and 45 percent of the table, in 32-bit unsigned arithmetic. */
  function EpochSize(nSize: nat): (n: nat)
    ensures n >= 1
  {
    var percent := (45 * nSize) % TWO32 / 100;
    if percent < 1 then 1 else percent
  }

  lemma AllCollected(mem: seq<bv8>, n: nat)
    requires n <= 8 * |mem| && forall i :: 0 <= i < |mem| ==> mem[i] == 0xff
    ensures Live(mem, n) == {}
  {
    forall i: nat | i < n ensures BitIsSet(mem, i) {
      assert mem[i / 8] == 0xff;
      FullByte(i % 8);
    }
  }

  /** The slots that hold `e`. */
  ghost function Holding<E>(t: seq<E>, e: E): (s: set<nat>) {
    set i: nat | i < |t| && t[i] == e
  }

  /** An element's slot is the only one; default elements are never live. */
  lemma HoldingIs<E>(t: seq<E>, default: E, hash: (nat, E) -> uint32, live: set<nat>, loc: nat)
    requires 0 < |t| < TWO32 && TableOk(t, default, hash, live)
    requires loc < |t|
    ensures live - Holding(t, t[loc]) == live - {loc}
  {
  }

  /** The documented 45 percent holds exactly up to the size where 45 times the table leaves 32 bits. */
  lemma EpochSizeIsAsDocumented(nSize: nat)
    requires 4 <= nSize < TWO32
    ensures EpochSize(nSize) == 45 * nSize / 100 <==> 45 * nSize < TWO32
  {
    var x := 45 * nSize;
    if x >= TWO32 {
      assert x % TWO32 <= x - TWO32;
      assert x % TWO32 / 100 < x / 100;
    } else {
      assert x % TWO32 == x;
    }
  }
}
