/** The rolling bloom filter: two bits per cell that say in which of three generations the cell was last set. */
module RollingBloom {
  import opened Arith

  // ----- Words as the sets of their one bits -----

  type Position = i: nat | i < 64

  type Word = set<nat>

  const ZERO: Word := {}

  predicate Bit(w: Word, i: nat) {
    i in w
  }

  function Or(a: Word, b: Word): (r: Word) {
    a + b
  }

  function And(a: Word, b: Word): (r: Word) {
    a * b
  }

  function Xor(a: Word, b: Word): (r: Word) {
    (a - b) + (b - a)
  }

  predicate Inside(i: nat) {
    i < 64
  }

  /** All bits equal to `g`. */
  function Mask(g: bool): (r: Word) {
    if g then set i: nat | i < 64 && Inside(i) else ZERO
  }

  /** Bit `i` cleared and then set to `g`. */
  function WithBit(w: Word, i: nat, g: bool): (r: Word) {
    Or(And(w, Xor({i}, Mask(true))), if g then {i} else ZERO)
  }

  lemma WithBitMeans(w: Word, i: Position, g: bool, j: Position)
    ensures Bit(WithBit(w, i, g), j) == if j == i then g else Bit(w, j)
  {
  }

  lemma BitMeans(a: Word, b: Word, i: nat)
    ensures Bit(Or(a, b), i) <==> Bit(a, i) || Bit(b, i)
    ensures Bit(And(a, b), i) <==> Bit(a, i) && Bit(b, i)
  {
  }

  /** The bits where the two words do not spell the generation. */
  function Others(p1: Word, p2: Word, g1: bool, g2: bool): (r: Word) {
    Or(Xor(p1, Mask(g1)), Xor(p2, Mask(g2)))
  }

  lemma OthersMeans(p1: Word, p2: Word, g1: bool, g2: bool, i: Position)
    ensures Bit(Others(p1, p2, g1, g2), i) <==> !(Bit(p1, i) == g1 && Bit(p2, i) == g2)
  {
  }

  // ----- Cells -----

  datatype Cell = Cell(pair: nat, bit: Position)

  /** The two bits of a cell spell the number `g`. */
  ghost predicate Shows(data: seq<Word>, c: Cell, g: nat) {
    2 * c.pair + 1 < |data| && Bit(data[2 * c.pair], c.bit) == (g % 2 == 1) && Bit(data[2 * c.pair + 1], c.bit) == (g >= 2)
  }

  /** The generation number of a cell last set in generation `stamps[c]`, seen from generation `now`: zero when three
      generations have passed. */
  ghost function Number(stamps: map<Cell, nat>, c: Cell, now: nat): (g: nat) {
    if c in stamps && stamps[c] + 3 > now then stamps[c] % 3 + 1 else 0
  }

  /** The cells of pairs `lo` up to `hi` show the generations they were last set in. */
  ghost predicate CellsShow(data: seq<Word>, stamps: map<Cell, nat>, now: nat, lo: nat, hi: nat) {
    forall c: Cell :: lo <= c.pair < hi ==> Shows(data, c, Number(stamps, c, now))
  }

  ghost predicate NotAfter(stamps: map<Cell, nat>, now: nat) {
    forall c :: c in stamps ==> stamps[c] <= now
  }

  function GenerationOf(now: nat): (g: nat) {
    now % 3 + 1
  }

  /** Wiping one pair of words moves its cells on to the next generation. */
  lemma WipePair(data: seq<Word>, data': seq<Word>, stamps: map<Cell, nat>, now: nat, pair: nat)
    requires 2 * pair + 1 < |data| && NotAfter(stamps, now)
    requires CellsShow(data, stamps, now, pair, pair + 1)
    requires var g := GenerationOf(now + 1);
             var p1, p2 := data[2 * pair], data[2 * pair + 1];
             var mask := Others(p1, p2, g % 2 == 1, g >= 2);
             data' == data[2 * pair := And(p1, mask)][2 * pair + 1 := And(p2, mask)]
    ensures CellsShow(data', stamps, now + 1, pair, pair + 1)
  {
    hide Bit, And, Others;
    var g := GenerationOf(now + 1);
    var p1, p2 := data[2 * pair], data[2 * pair + 1];
    var mask := Others(p1, p2, g % 2 == 1, g >= 2);
    forall c: Cell | c.pair == pair ensures Shows(data', c, Number(stamps, c, now + 1)) {
      OthersMeans(p1, p2, g % 2 == 1, g >= 2, c.bit);
      BitMeans(p1, mask, c.bit);
      BitMeans(p2, mask, c.bit);
      var n := Number(stamps, c, now);
      assert Shows(data, c, n);
      assert (n % 2 == 1) == (g % 2 == 1) && (n >= 2) == (g >= 2) <==> n == g;
    }
  }

  /** Setting a cell changes that cell only. */
  lemma SetCell(data: seq<Word>, data': seq<Word>, stamps: map<Cell, nat>, now: nat, c: Cell)
    requires 2 * c.pair + 1 < |data| && NotAfter(stamps, now) && CellsShow(data, stamps, now, 0, |data| / 2)
    requires var g := GenerationOf(now);
             data' == data[2 * c.pair := WithBit(data[2 * c.pair], c.bit, g % 2 == 1)]
                          [2 * c.pair + 1 := WithBit(data[2 * c.pair + 1], c.bit, g >= 2)]
    ensures CellsShow(data', stamps[c := now], now, 0, |data'| / 2)
  {
    hide Bit, WithBit;
    var g := GenerationOf(now);
    forall d: Cell | d.pair < |data'| / 2 ensures Shows(data', d, Number(stamps[c := now], d, now)) {
      assert Shows(data, d, Number(stamps, d, now));
      WithBitMeans(data[2 * c.pair], c.bit, g % 2 == 1, d.bit);
      WithBitMeans(data[2 * c.pair + 1], c.bit, g >= 2, d.bit);
    }
  }

  // ----- What is remembered -----

  type Key = seq<nat>

  /** How keys select cells: the keyed hash, the number of words, the number of hash functions, the tweak. */
  datatype Hashing = Hashing(hash: (nat, nat, Key) -> nat, words: nat, count: nat, tweak: nat)

  function CellOf(f: Hashing, n: nat, key: Key): (c: Cell)
    requires f.words > 0
  {
    var h := f.hash(n, f.tweak, key);
    Cell(((h / 64) % f.words) / 2, h % 64)
  }

  lemma CellInside(f: Hashing, n: nat, key: Key)
    requires f.words > 0 && f.words % 2 == 0
    ensures 2 * CellOf(f, n, key).pair + 1 < f.words
  {
  }

  /** A cell set in a generation or later. */
  ghost predicate Since(stamps: map<Cell, nat>, c: Cell, generation: nat) {
    c in stamps && stamps[c] >= generation
  }

  /** The first `count` cells of a key. */
  ghost predicate KeySince(stamps: map<Cell, nat>, f: Hashing, key: Key, generation: nat, count: nat)
    requires f.words > 0
  {
    forall n :: 0 <= n < count ==> Since(stamps, CellOf(f, n, key), generation)
  }

  /** Item `k` of the log was inserted in generation `k / size`. */
  ghost predicate Remembered(stamps: map<Cell, nat>, f: Hashing, log: seq<Key>, size: nat)
    requires size > 0 && f.words > 0
  {
    forall k :: 0 <= k < |log| ==> KeySince(stamps, f, log[k], k / size, f.count)
  }

  lemma StampMore(stamps: map<Cell, nat>, c: Cell, now: nat, f: Hashing, log: seq<Key>, size: nat, key: Key, count: nat)
    requires size > 0 && f.words > 0 && Remembered(stamps, f, log, size) && NotAfter(stamps, now)
    requires KeySince(stamps, f, key, now, count) && c == CellOf(f, count, key)
    ensures Remembered(stamps[c := now], f, log, size) && NotAfter(stamps[c := now], now)
    ensures KeySince(stamps[c := now], f, key, now, count + 1)
  {
    forall k, n | 0 <= k < |log| && 0 <= n < f.count ensures Since(stamps[c := now], CellOf(f, n, log[k]), k / size) {
      assert KeySince(stamps, f, log[k], k / size, f.count);
      assert Since(stamps, CellOf(f, n, log[k]), k / size);
    }
  }

  lemma LogMore(stamps: map<Cell, nat>, f: Hashing, log: seq<Key>, size: nat, key: Key, now: nat, entries: nat)
    requires size > 0 && f.words > 0 && Remembered(stamps, f, log, size) && KeySince(stamps, f, key, now, f.count)
    requires |log| == now * size + entries && entries < size
    ensures Remembered(stamps, f, log + [key], size)
  {
    InGeneration(|log|, now, size, entries);
    forall k | 0 <= k < |log| + 1 ensures KeySince(stamps, f, (log + [key])[k], k / size, f.count) {
      if k < |log| { assert (log + [key])[k] == log[k]; }
    }
  }

  lemma InGeneration(n: nat, now: nat, size: nat, entries: nat)
    requires size > 0 && n == now * size + entries && entries < size
    ensures n / size == now
  {
    DivModUnique(n, now, entries, size);
  }

  // ----- The filter -----

  class RollingBloomFilter {
    const nEntriesPerGeneration: nat
    const nHashFuncs: nat
    const hash: (nat, nat, Key) -> nat
    const data: array<Word>
    var nTweak: nat
    var nEntriesThisGeneration: nat
    var nGeneration: nat
    /** The generations counted without wrap-around, when each cell was last set, and the items since the last reset. */
    ghost var now: nat
    ghost var stamps: map<Cell, nat>
    ghost var log: seq<Key>

    function F(): (f: Hashing)
      reads this`nTweak
    {
      Hashing(hash, data.Length, nHashFuncs, nTweak)
    }

    ghost predicate Shaped()
      reads this, data
    {
      && data.Length >= 2 && data.Length % 2 == 0 && nEntriesPerGeneration >= 1
      && nGeneration == GenerationOf(now) && NotAfter(stamps, now)
      && CellsShow(data[..], stamps, now, 0, data.Length / 2)
      && Remembered(stamps, F(), log, nEntriesPerGeneration)
    }

    ghost predicate Valid()
      reads this, data
    {
      && Shaped() && nEntriesThisGeneration <= nEntriesPerGeneration
      && |log| == now * nEntriesPerGeneration + nEntriesThisGeneration
    }

    /** `words` is the size the false positive rate asks for. */
    constructor (nElements: nat, nHashFuncs: nat, words: nat, hash: (nat, nat, Key) -> nat, tweak: nat)
      requires nElements >= 1 && words >= 2 && words % 2 == 0
      ensures Valid() && log == [] && fresh(data)
      ensures 2 * nEntriesPerGeneration >= nElements
    {
      nEntriesPerGeneration := (nElements + 1) / 2;
      this.nHashFuncs, this.hash := nHashFuncs, hash;
      data := new Word[words];
      new;
      Reset(tweak);
    }

    method Reset(tweak: nat)
      requires data.Length >= 2 && data.Length % 2 == 0 && nEntriesPerGeneration >= 1
      modifies this, data
      ensures Valid() && log == [] && nTweak == tweak
    {
      nTweak := tweak;
      nEntriesThisGeneration := 0;
      nGeneration := 1;
      for i := 0 to data.Length
        invariant forall k :: 0 <= k < i ==> data[k] == ZERO
        invariant nTweak == tweak && nEntriesThisGeneration == 0 && nGeneration == 1
      {
        data[i] := ZERO;
      }
      now, stamps, log := 0, map[], [];
      NothingSet(data[..]);
    }

    /** Starts the next generation and wipes the cells that carry its number. */
    method NextGeneration()
      requires Shaped()
      modifies this`nGeneration, this`now, data
      ensures Shaped() && now == old(now) + 1
    {
      hide Remembered, CellsShow;
      nGeneration := nGeneration + 1;
      if nGeneration == 4 {
        nGeneration := 1;
      }
      WipeAll(data, nGeneration, stamps, now);
      now := now + 1;
    }

    method Insert(key: Key)
      requires Valid()
      modifies this, data
      ensures Valid() && log == old(log) + [key] && nTweak == old(nTweak)
    {
      if nEntriesThisGeneration == nEntriesPerGeneration {
        nEntriesThisGeneration := 0;
        NextGeneration();
        assert |log| == now * nEntriesPerGeneration + nEntriesThisGeneration;
      }
      SetCells(key);
      hide CellsShow, Remembered, KeySince;
      LogMore(stamps, F(), log, nEntriesPerGeneration, key, now, nEntriesThisGeneration);
      nEntriesThisGeneration := nEntriesThisGeneration + 1;
      log := log + [key];
    }

    /** Sets the cells of a key in the current generation. */
    method SetCells(key: Key)
      requires Shaped()
      modifies this`stamps, data
      ensures Shaped() && KeySince(stamps, F(), key, now, nHashFuncs)
    {
      hide Remembered, KeySince, CellsShow;
      NoneYet(stamps, F(), key, now);
      for n := 0 to nHashFuncs
        invariant Shaped() && KeySince(stamps, F(), key, now, n)
      {
        var c := CellOf(F(), n, key);
        CellInside(F(), n, key);
        ghost var was := data[..];
        data[2 * c.pair] := WithBit(data[2 * c.pair], c.bit, nGeneration % 2 == 1);
        data[2 * c.pair + 1] := WithBit(data[2 * c.pair + 1], c.bit, nGeneration >= 2);
        SetCell(was, data[..], stamps, now, c);
        StampMore(stamps, c, now, F(), log, nEntriesPerGeneration, key, n);
        stamps := stamps[c := now];
      }
    }

    /** Says yes exactly if all cells of the key are set, and so for the items of at least the last two full
        generations. */
    method Contains(key: Key) returns (r: bool)
      requires Valid()
      ensures r <==> AllSet(data[..], F(), key, nHashFuncs)
      ensures key in log[Oldest(|log|, nEntriesThisGeneration, nEntriesPerGeneration)..] ==> r
    {
      if key in log[Oldest(|log|, nEntriesThisGeneration, nEntriesPerGeneration)..] {
        ghost var k := Recent(log, nEntriesPerGeneration, now, nEntriesThisGeneration, key);
        Kept(data[..], stamps, F(), log, nEntriesPerGeneration, now, k);
      }
      var f := F();
      hide CellsShow, Remembered, KeySince, CellOf, Shows;
      for n := 0 to nHashFuncs
        invariant AllSet(data[..], f, key, n)
      {
        CellInside(f, n, key);
        var set_ := IsSet(data, CellOf(f, n, key));
        if !set_ {
          assert Shows(data[..], CellOf(f, n, key), 0);
          return false;
        }
      }
      return true;
    }
  }

  /** The first `count` cells of a key are set in some generation. */
  ghost predicate AllSet(data: seq<Word>, f: Hashing, key: Key, count: nat)
    requires f.words > 0
  {
    forall n :: 0 <= n < count ==> !Shows(data, CellOf(f, n, key), 0)
  }

  method IsSet(data: array<Word>, c: Cell) returns (b: bool)
    requires 2 * c.pair + 1 < data.Length
    ensures b <==> !Shows(data[..], c, 0)
  {
    hide Bit, Or;
    BitMeans(data[2 * c.pair], data[2 * c.pair + 1], c.bit);
    b := Bit(Or(data[2 * c.pair], data[2 * c.pair + 1]), c.bit);
  }

  /** Clears every cell that carries the number of the next generation. */
  method WipeAll(data: array<Word>, g: nat, ghost stamps: map<Cell, nat>, ghost now: nat)
    requires g == GenerationOf(now + 1) && data.Length % 2 == 0 && NotAfter(stamps, now)
    requires CellsShow(data[..], stamps, now, 0, data.Length / 2)
    modifies data
    ensures CellsShow(data[..], stamps, now + 1, 0, data.Length / 2)
  {
    NoCells(data[..], stamps, now + 1);
    hide CellsShow;
    var p := 0;
    ghost var pair, pairs := 0, data.Length / 2;
    while p < data.Length
      invariant p == 2 * pair && pair <= pairs && data.Length == 2 * pairs
      invariant CellsShow(data[..], stamps, now + 1, 0, pair) && CellsShow(data[..], stamps, now, pair, pairs)
    {
      ghost var was := data[..];
      Wipe(data, p, g);
      WipeStep(was, data[..], stamps, now, pair);
      p, pair := p + 2, pair + 1;
    }
  }

  /** Clears the cells of one pair of words that carry a generation number. */
  method Wipe(data: array<Word>, p: nat, g: nat)
    requires p + 1 < data.Length
    modifies data
    ensures var p1, p2 := old(data[p]), old(data[p + 1]);
            var mask := Others(p1, p2, g % 2 == 1, g >= 2);
            data[..] == old(data[..])[p := And(p1, mask)][p + 1 := And(p2, mask)]
  {
    hide Others, And;
    var p1, p2 := data[p], data[p + 1];
    var mask := Others(p1, p2, g % 2 == 1, g >= 2);
    data[p] := And(p1, mask);
    data[p + 1] := And(p2, mask);
  }

  /** The first item of the log that is surely still known: those of this generation and the two before it. */
  function Oldest(length: nat, entries: nat, size: nat): (k: nat)
    ensures k <= length
  {
    if length <= entries + 2 * size then 0 else length - entries - 2 * size
  }

  lemma Recent(log: seq<Key>, size: nat, now: nat, entries: nat, key: Key) returns (k: nat)
    requires size > 0 && |log| == now * size + entries && key in log[Oldest(|log|, entries, size)..]
    ensures k < |log| && log[k] == key && k / size + 3 > now
  {
    k :| Oldest(|log|, entries, size) <= k < |log| && log[k] == key;
    RecentEnough(k, now, size);
  }

  lemma Kept(data: seq<Word>, stamps: map<Cell, nat>, f: Hashing, log: seq<Key>, size: nat, now: nat, k: nat)
    requires size > 0 && f.words == |data| > 0 && |data| % 2 == 0 && k < |log| && k / size + 3 > now
    requires CellsShow(data, stamps, now, 0, |data| / 2) && Remembered(stamps, f, log, size)
    ensures AllSet(data, f, log[k], f.count)
  {
    hide Bit, CellOf;
    assert KeySince(stamps, f, log[k], k / size, f.count);
    forall n | 0 <= n < f.count ensures !Shows(data, CellOf(f, n, log[k]), 0) {
      CellInside(f, n, log[k]);
      StillShown(data, stamps, CellOf(f, n, log[k]), now, k / size);
    }
  }

  lemma StillShown(data: seq<Word>, stamps: map<Cell, nat>, c: Cell, now: nat, g: nat)
    requires CellsShow(data, stamps, now, 0, |data| / 2) && 2 * c.pair + 1 < |data|
    requires Since(stamps, c, g) && g + 3 > now
    ensures !Shows(data, c, 0)
  {
    hide Bit;
    assert Shows(data, c, Number(stamps, c, now));
  }

  lemma RecentEnough(k: nat, now: nat, size: nat)
    requires size > 0 && k + 2 * size >= now * size
    ensures k / size + 3 > now
  {
    assert k == size * (k / size) + k % size;
    if k / size + 3 <= now {
      MulLe(k / size + 3, now, size);
      assert false;
    }
  }

  lemma NoneYet(stamps: map<Cell, nat>, f: Hashing, key: Key, now: nat)
    requires f.words > 0
    ensures KeySince(stamps, f, key, now, 0)
  {
  }

  lemma NoCells(data: seq<Word>, stamps: map<Cell, nat>, now: nat)
    ensures CellsShow(data, stamps, now, 0, 0)
  {
  }

  lemma NothingSet(data: seq<Word>)
    requires forall k :: 0 <= k < |data| ==> data[k] == ZERO
    ensures CellsShow(data, map[], 0, 0, |data| / 2)
  {
    forall c: Cell | c.pair < |data| / 2 ensures Shows(data, c, 0) {
    }
  }

  lemma WipeStep(data: seq<Word>, data': seq<Word>, stamps: map<Cell, nat>, now: nat, pair: nat)
    requires 2 * pair + 1 < |data| && |data| % 2 == 0 && NotAfter(stamps, now)
    requires CellsShow(data, stamps, now + 1, 0, pair) && CellsShow(data, stamps, now, pair, |data| / 2)
    requires var g := GenerationOf(now + 1);
             var p1, p2 := data[2 * pair], data[2 * pair + 1];
             var mask := Others(p1, p2, g % 2 == 1, g >= 2);
             data' == data[2 * pair := And(p1, mask)][2 * pair + 1 := And(p2, mask)]
    ensures CellsShow(data', stamps, now + 1, 0, pair + 1) && CellsShow(data', stamps, now, pair + 1, |data| / 2)
  {
    hide Bit, Others, And;
    WipePair(data, data', stamps, now, pair);
    forall c: Cell | c.pair < |data| / 2 && c.pair != pair
      ensures forall g :: Shows(data, c, g) ==> Shows(data', c, g)
    {
    }
  }
}
