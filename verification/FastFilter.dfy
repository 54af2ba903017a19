/** The rolling fast filter: three bit vectors that take turns, so that an item survives two full rounds. */
module FastFilter {
  import opened Arith
  import PackedBits

  type Key = seq<nat>
  type Bits = seq<bv8>

  predicate Has(v: Bits, idx: nat) {
    idx / 8 < |v| && PackedBits.BitIsSet(v, idx)
  }

  function Set(v: Bits, idx: nat): (r: Bits)
    requires idx / 8 < |v|
  {
    PackedBits.BitSet(v, idx)
  }

  lemma SetKeeps(v: Bits, idx: nat, other: nat)
    requires idx / 8 < |v|
    ensures Has(Set(v, idx), idx) && |Set(v, idx)| == |v|
    ensures Has(v, other) ==> Has(Set(v, idx), other)
  {
    if other / 8 < |v| { PackedBits.FlagWrites(v, idx, other); }
    PackedBits.FlagWrites(v, idx, idx);
  }

  /** All these positions are set. */
  predicate HasAll(v: Bits, at: seq<nat>) {
    forall i :: 0 <= i < |at| ==> Has(v, at[i])
  }

  /** The positions a key selects: a function of the salted key, all inside the filter. */
  datatype Layout = Layout(at: Key -> seq<nat>, size: nat, pairs: nat)

  ghost predicate Inside(f: Layout) {
    f.size % 8 == 0 && f.size >= 8 && forall key: Key ::
      |f.at(key)| == 2 * f.pairs && forall i :: 0 <= i < 2 * f.pairs ==> f.at(key)[i] < f.size
  }

  /** Every item of the log between two positions is in the vector. */
  ghost predicate Covers(f: Layout, v: Bits, log: seq<Key>, lo: int, hi: int) {
    forall k :: 0 <= k < |log| && lo <= k < hi ==> HasAll(v, f.at(log[k]))
  }

  lemma CoversGrow(f: Layout, v: Bits, idx: nat, log: seq<Key>, lo: int, hi: int)
    requires Covers(f, v, log, lo, hi) && idx / 8 < |v|
    ensures Covers(f, Set(v, idx), log, lo, hi)
  {
    hide Set, Has;
    forall k | 0 <= k < |log| && lo <= k < hi ensures HasAll(Set(v, idx), f.at(log[k])) {
      var at := f.at(log[k]);
      assert HasAll(v, at);
      forall i | 0 <= i < |at| ensures Has(Set(v, idx), at[i]) { SetKeeps(v, idx, at[i]); }
    }
  }

  lemma CoversLonger(f: Layout, v: Bits, log: seq<Key>, lo: int, hi: int, key: Key)
    requires Covers(f, v, log, lo, hi) && hi <= |log|
    ensures Covers(f, v, log + [key], lo, hi)
    ensures hi == |log| && HasAll(v, f.at(key)) ==> Covers(f, v, log + [key], lo, hi + 1)
  {
    var more := log + [key];
    forall k | 0 <= k < |log| ensures more[k] == log[k] {}
  }

  /** The entries of one round: the counter reaches half the filter size with the last of them. */
  function RoundSize(size: nat, hashFns: nat): (k: nat)
    requires hashFns > 0
  {
    (size / 2 + hashFns - 1) / hashFns
  }

  lemma RoundEnds(size: nat, hashFns: nat, r: nat)
    requires hashFns > 0 && size >= 8
    ensures r * hashFns >= size / 2 <==> r >= RoundSize(size, hashFns)
    ensures RoundSize(size, hashFns) >= 1
  {
    var k, h := RoundSize(size, hashFns), size / 2 + hashFns - 1;
    assert h == hashFns * k + h % hashFns;
    if r >= k {
      MulLe(k, r, hashFns);
    } else {
      MulLe(r + 1, k, hashFns);
      assert (r + 1) * hashFns == r * hashFns + hashFns;
    }
    if k < 1 { MulLe(k, 0, hashFns); assert false; }
  }

  class RollingFastFilter {
    const f: Layout
    const numHashFns: nat
    var elementsSet: nat
    var elementsSet2: nat
    var elementsSet3: nat
    var vData: Bits
    var vData2: Bits
    var vData3: Bits
    var fCurrentSwapIsData2: bool
    /** The items since the last reset, and how many of them are in full rounds. */
    ghost var log: seq<Key>
    ghost var done: nat

    ghost function K(): (k: nat)
      requires numHashFns > 0
    {
      RoundSize(f.size, numHashFns)
    }

    /** The vectors of the last full round and of the one before. */
    ghost function Last(): (v: Bits)
      reads this
    {
      if fCurrentSwapIsData2 then vData3 else vData2
    }

    ghost function Previous(): (v: Bits)
      reads this
    {
      if fCurrentSwapIsData2 then vData2 else vData3
    }

    ghost predicate Counted(n: nat)
      reads this
    {
      n == 0 || n >= f.size / 2
    }

    ghost predicate Valid()
      reads this
    {
      && Inside(f) && numHashFns > 0 && |vData| == |vData2| == |vData3| == f.size / 8
      && Counted(elementsSet2) && Counted(elementsSet3)
      && done <= |log| <= done + K() && elementsSet == (|log| - done) * numHashFns
      && Covers(f, vData, log, done, |log|)
      && Covers(f, Last(), log, done - K(), done)
      && Covers(f, Previous(), log, done - 2 * K(), done - K())
    }

    constructor (f: Layout, numHashFns: nat)
      requires Inside(f) && numHashFns > 0
      ensures Valid() && log == [] && this.f == f && this.numHashFns == numHashFns
    {
      this.f, this.numHashFns := f, numHashFns;
      new;
      Reset();
    }

    method Reset()
      requires Inside(f) && numHashFns > 0
      modifies this
      ensures Valid() && log == []
    {
      fCurrentSwapIsData2 := true;
      elementsSet, elementsSet2, elementsSet3 := 0, 0, 0;
      vData, vData2, vData3 := seq(f.size / 8, _ => 0), seq(f.size / 8, _ => 0), seq(f.size / 8, _ => 0);
      log, done := [], 0;
    }

    /** Puts the full vector away and takes the older of the other two, cleared. */
    method Rotate()
      requires Valid() && elementsSet >= f.size / 2
      modifies this
      ensures Valid() && log == old(log) && done == |log|
    {
      hide RoundSize, Covers, Inside;
      SizeOf(f);
      RoundEnds(f.size, numHashFns, |log| - done);
      if fCurrentSwapIsData2 {
        if elementsSet2 >= f.size / 2 {
          vData2 := seq(f.size / 8, _ => 0);
          elementsSet2 := 0;
        }
        elementsSet, elementsSet2 := elementsSet2, elementsSet;
        vData, vData2 := vData2, vData;
        fCurrentSwapIsData2 := false;
      } else {
        if elementsSet3 >= f.size / 2 {
          vData3 := seq(f.size / 8, _ => 0);
          elementsSet3 := 0;
        }
        elementsSet, elementsSet3 := elementsSet3, elementsSet;
        vData, vData3 := vData3, vData;
        fCurrentSwapIsData2 := true;
      }
      done := |log|;
      NothingYet(f, vData, log);
    }

    method Insert(key: Key)
      requires Valid()
      modifies this
      ensures Valid() && log == old(log) + [key]
    {
      hide RoundSize, Inside, Covers, HasAll;
      SizeOf(f);
      if elementsSet >= f.size / 2 {
        Rotate();
      }
      RoundEnds(f.size, numHashFns, |log| - done);
      SetBits(key);
      CoversLonger(f, vData, log, done, |log|, key);
      CoversLonger(f, Last(), log, done - K(), done, key);
      CoversLonger(f, Previous(), log, done - 2 * K(), done - K(), key);
      OneMore(|log| - done, numHashFns);
      elementsSet := elementsSet + numHashFns;
      log := log + [key];
    }

    /** Sets the positions of a key in the current vector, two in each step. */
    method SetBits(key: Key)
      requires Valid()
      modifies this`vData
      ensures Valid() && HasAll(vData, f.at(key))
    {
      var at := f.at(key);
      var i := 0;
      while i < f.pairs
        invariant 0 <= i <= f.pairs && |vData| == f.size / 8 && Covers(f, vData, log, done, |log|)
        invariant HasAll(vData, at[..2 * i])
      {
        var idx, idx2 := at[2 * i], at[2 * i + 1];
        vData := SetBit(vData, idx, at, 2 * i, log, done);
        vData := SetBit(vData, idx2, at, 2 * i + 1, log, done);
        i := i + 1;
      }
      assert at[..2 * f.pairs] == at;
    }

    method SetBit(v: Bits, idx: nat, ghost at: seq<nat>, ghost n: nat, ghost log: seq<Key>, ghost lo: int) returns (r: Bits)
      requires idx / 8 < |v| && n < |at| && at[n] == idx && HasAll(v, at[..n]) && Covers(f, v, log, lo, |log|)
      ensures |r| == |v| && HasAll(r, at[..n + 1]) && Covers(f, r, log, lo, |log|)
    {
      hide Has, Set, Covers;
      r := Set(v, idx);
      SetKeeps(v, idx, idx);
      CoversGrow(f, v, idx, log, lo, |log|);
      ghost var slice := at[..n + 1];
      forall i | 0 <= i < |slice| ensures Has(r, slice[i]) {
        if i < n {
          assert slice[i] == at[..n][i];
          SetKeeps(v, idx, slice[i]);
        }
      }
    }

    /** Says yes exactly if one of the three vectors has all positions of the key; so it does for every item of the
        current round and of the two rounds before. */
    method Contains(key: Key) returns (r: bool)
      requires Valid()
      ensures r <==> HasAll(vData, f.at(key)) || HasAll(vData2, f.at(key)) || HasAll(vData3, f.at(key))
      ensures (exists k :: 0 <= k < |log| && k >= done - 2 * K() && log[k] == key) ==> r
    {
      if k :| 0 <= k < |log| && k >= done - 2 * K() && log[k] == key {
        assert HasAll(vData, f.at(log[k])) || HasAll(Last(), f.at(log[k])) || HasAll(Previous(), f.at(log[k]));
      }
      hide Covers;
      var at := f.at(key);
      var unset, unset2, unset3 := false, false, false;
      var i := 0;
      while i < f.pairs
        invariant 0 <= i <= f.pairs
        invariant unset == !HasAll(vData, at[..2 * i]) && unset2 == !HasAll(vData2, at[..2 * i])
        invariant unset3 == !HasAll(vData3, at[..2 * i]) && !(unset && unset2 && unset3)
      {
        var idx, idx2 := at[2 * i], at[2 * i + 1];
        TwoMore(vData, at, i);
        TwoMore(vData2, at, i);
        TwoMore(vData3, at, i);
        unset := unset || !Has(vData, idx) || !Has(vData, idx2);
        unset2 := unset2 || !Has(vData2, idx) || !Has(vData2, idx2);
        unset3 := unset3 || !Has(vData3, idx) || !Has(vData3, idx2);
        i := i + 1;
        if unset && unset2 && unset3 {
          PrefixMissing(vData, at, 2 * i);
          PrefixMissing(vData2, at, 2 * i);
          PrefixMissing(vData3, at, 2 * i);
          return false;
        }
      }
      assert at[..2 * f.pairs] == at;
      return true;
    }
  }

  lemma SizeOf(f: Layout)
    requires Inside(f)
    ensures f.size >= 8
  {
  }

  lemma NothingYet(f: Layout, v: Bits, log: seq<Key>)
    ensures Covers(f, v, log, |log|, |log|)
  {
  }

  lemma OneMore(r: int, h: int)
    ensures (r + 1) * h == r * h + h
  {
  }

  lemma TwoMore(v: Bits, at: seq<nat>, i: nat)
    requires 2 * i + 2 <= |at|
    ensures HasAll(v, at[..2 * (i + 1)]) <==> HasAll(v, at[..2 * i]) && Has(v, at[2 * i]) && Has(v, at[2 * i + 1])
  {
    hide Has;
    var a, b := at[..2 * i], at[..2 * (i + 1)];
    assert b == a + [at[2 * i], at[2 * i + 1]];
    if HasAll(v, b) {
      forall j | 0 <= j < |a| ensures Has(v, a[j]) { assert b[j] == a[j]; }
      assert b[2 * i] == at[2 * i] && b[2 * i + 1] == at[2 * i + 1];
    }
  }

  lemma PrefixMissing(v: Bits, at: seq<nat>, n: nat)
    requires n <= |at| && !HasAll(v, at[..n])
    ensures !HasAll(v, at)
  {
    var i :| 0 <= i < n && !Has(v, at[..n][i]);
    assert at[i] == at[..n][i];
  }
}
