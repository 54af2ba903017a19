/** The invertible bloom lookup table: a sketch of signed keys that can be subtracted and peeled. */
module Iblt {
  import opened Arith

  // ----- Entries -----

  function Xor(a: bv64, b: bv64): (r: bv64) { a ^ b }

  function Xor32(a: bv32, b: bv32): (r: bv32) { a ^ b }

  lemma XorLaws(a: bv64, b: bv64)
    ensures Xor(a, b) == Xor(b, a) && Xor(a, 0) == a && Xor(a, a) == 0
  {
  }

  lemma XorAssoc(a: bv64, b: bv64, c: bv64)
    ensures Xor(Xor(a, b), c) == Xor(a, Xor(b, c))
  {
    assert (a ^ b) ^ c == a ^ (b ^ c);
  }

  lemma Xor32Laws(a: bv32, b: bv32)
    ensures Xor32(a, b) == Xor32(b, a) && Xor32(a, 0) == a && Xor32(a, a) == 0
  {
  }

  lemma Xor32Assoc(a: bv32, b: bv32, c: bv32)
    ensures Xor32(Xor32(a, b), c) == Xor32(a, Xor32(b, c))
  {
  }

  datatype Entry = Entry(count: int, keySum: bv64, keyCheck: bv32)

  const ZERO: Entry := Entry(0, 0, 0)

  function Join(a: Entry, b: Entry): (r: Entry) {
    Entry(a.count + b.count, Xor(a.keySum, b.keySum), Xor32(a.keyCheck, b.keyCheck))
  }

  function Minus(a: Entry): (r: Entry) {
    Entry(-a.count, a.keySum, a.keyCheck)
  }

  lemma JoinLaws(a: Entry, b: Entry)
    ensures Join(a, b) == Join(b, a) && Join(a, ZERO) == a && Join(ZERO, a) == a && Join(a, Minus(a)) == ZERO
  {
    XorLaws(a.keySum, b.keySum);
    Xor32Laws(a.keyCheck, b.keyCheck);
    XorLaws(0, a.keySum);
    Xor32Laws(0, a.keyCheck);
    hide Xor, Xor32;
  }

  lemma JoinAssoc(a: Entry, b: Entry, c: Entry)
    ensures Join(Join(a, b), c) == Join(a, Join(b, c))
  {
    XorAssoc(a.keySum, b.keySum, c.keySum);
    Xor32Assoc(a.keyCheck, b.keyCheck, c.keyCheck);
    hide Xor, Xor32;
  }

  // ----- Which cells a key touches -----

  /** The shape of a table: hash functions, cells, the keyed hashes and the key checksum under its mask. */
  datatype Shape = Shape(nHash: nat, size: nat, hash: (nat, bv64) -> nat, check: bv64 -> bv32, mask: bv32)

  function BucketsPerHash(p: Shape): (b: nat) {
    if p.nHash == 0 then 0 else DivLe(p.size, p.nHash); p.size / p.nHash
  }

  /** The cell of a key under hash function `i`. */
  function CellIndex(p: Shape, i: nat, k: bv64): (j: nat)
    requires BucketsPerHash(p) > 0
  {
    MulLe(0, i, BucketsPerHash(p));
    i * BucketsPerHash(p) + p.hash(i, k) % BucketsPerHash(p)
  }

  predicate Hits(p: Shape, k: bv64, j: nat) {
    var b := BucketsPerHash(p);
    b > 0 && j / b < p.nHash && j % b == p.hash(j / b, k) % b
  }

  lemma CellIsHit(p: Shape, i: nat, k: bv64)
    requires BucketsPerHash(p) > 0 && i < p.nHash
    ensures var j, b := CellIndex(p, i, k), BucketsPerHash(p); j < p.size && j / b == i && Hits(p, k, j)
  {
    var b := BucketsPerHash(p);
    var j, r := CellIndex(p, i, k), p.hash(i, k) % b;
    DivModUnique(j, i, r, b);
    RowsFit(i, p.nHash, b, p.size);
  }

  lemma RowsFit(i: nat, n: nat, b: nat, size: nat)
    requires i < n && b == size / n
    ensures i * b + b <= size
  {
    DivLe(size, n);
    MulLe(i + 1, n, b);
    assert (i + 1) * b == i * b + b;
    assert size == n * b + size % n;
  }

  /** A hash function selects one cell of its own row. */
  lemma OneCellPerRow(p: Shape, i: nat, k: bv64, j: nat)
    requires BucketsPerHash(p) > 0 && i < p.nHash && j / BucketsPerHash(p) == i
    ensures Hits(p, k, j) <==> j == CellIndex(p, i, k)
  {
    var b := BucketsPerHash(p);
    CellIsHit(p, i, k);
    var c := CellIndex(p, i, k);
    assert j == b * (j / b) + j % b && c == b * (c / b) + c % b;
  }

  // ----- Signed keys and what a cell holds of them -----

  datatype Op = Op(sign: int, key: bv64)

  function Masked(c: bv32, mask: bv32): (r: bv32) { c & mask }

  function One(p: Shape, o: Op): (e: Entry) {
    Entry(o.sign, o.key, Masked(p.check(o.key), p.mask))
  }

  function Share(p: Shape, o: Op, j: nat): (e: Entry) {
    if Hits(p, o.key, j) then One(p, o) else ZERO
  }

  /** What cell `j` holds after these operations: the signed sum of the keys that touch it. */
  function CellOf(p: Shape, log: seq<Op>, j: nat): (e: Entry) {
    if log == [] then ZERO else Join(CellOf(p, log[..|log| - 1], j), Share(p, log[|log| - 1], j))
  }

  lemma {:induction false} CellAppend(p: Shape, a: seq<Op>, b: seq<Op>, j: nat)
    ensures CellOf(p, a + b, j) == Join(CellOf(p, a, j), CellOf(p, b, j))
  {
    hide Join, Share;
    if b == [] {
      assert a + b == a;
      JoinLaws(CellOf(p, a, j), ZERO);
    } else {
      var n := |b| - 1;
      assert (a + b)[..|a + b| - 1] == a + b[..n];
      CellAppend(p, a, b[..n], j);
      JoinAssoc(CellOf(p, a, j), CellOf(p, b[..n], j), Share(p, b[n], j));
    }
  }

  /** The order of the operations does not matter. */
  lemma {:induction false} OrderIrrelevant(p: Shape, a: seq<Op>, b: seq<Op>, j: nat)
    requires multiset(a) == multiset(b)
    ensures CellOf(p, a, j) == CellOf(p, b, j)
    decreases |a|
  {
    if a == [] {
      assert |b| == |multiset(b)| == 0;
    } else {
      var n := |a| - 1;
      var i := Partner(a, b);
      var x, y := b[..i], b[i + 1..];
      assert a == a[..n] + [a[n]] && b == x + ([a[n]] + y);
      OrderIrrelevant(p, a[..n], x + y, j);
      hide Join, Share, CellOf;
      CellPlus(p, a[..n], a[n], j);
      CellAppend(p, x, [a[n]] + y, j);
      CellAppend(p, [a[n]], y, j);
      CellAppend(p, x, y, j);
      Rotate(CellOf(p, x, j), CellOf(p, y, j), Share(p, a[n], j));
      SingleCell(p, a[n], j);
    }
  }

  lemma Partner(a: seq<Op>, b: seq<Op>) returns (i: nat)
    requires multiset(a) == multiset(b) && a != []
    ensures i < |b| && b[i] == a[|a| - 1] && multiset(a[..|a| - 1]) == multiset(b[..i] + b[i + 1..])
  {
    var n := |a| - 1;
    assert a == a[..n] + [a[n]];
    assert a[n] in multiset(b);
    i :| 0 <= i < |b| && b[i] == a[n];
    var x, y := b[..i], b[i + 1..];
    assert b == x + ([a[n]] + y);
    assert multiset([a[n]] + y) == multiset([a[n]]) + multiset(y);
    assert multiset(b) == multiset(x) + multiset([a[n]] + y);
    assert multiset(a) == multiset(a[..n]) + multiset([a[n]]);
    assert multiset(x + y) == multiset(x) + multiset(y);
    assert multiset(a[..n]) == multiset(a) - multiset([a[n]]);
    assert multiset(x + y) == multiset(b) - multiset([a[n]]);
  }

  lemma SingleCell(p: Shape, o: Op, j: nat)
    ensures CellOf(p, [o], j) == Share(p, o, j)
  {
    assert CellOf(p, [o], j) == Join(CellOf(p, [], j), Share(p, o, j));
    JoinLaws(Share(p, o, j), ZERO);
  }

  lemma Rotate(x: Entry, y: Entry, s: Entry)
    ensures Join(Join(x, y), s) == Join(x, Join(s, y))
  {
    hide Join;
    JoinAssoc(x, y, s);
    JoinLaws(y, s);
  }

  function Flip(log: seq<Op>): (r: seq<Op>)
    ensures |r| == |log|
  {
    seq(|log|, i requires 0 <= i < |log| => Op(-log[i].sign, log[i].key))
  }

  /** Erasing instead of inserting negates what the cells hold. */
  lemma {:induction false} CellFlip(p: Shape, log: seq<Op>, j: nat)
    ensures CellOf(p, Flip(log), j) == Minus(CellOf(p, log, j))
  {
    hide Join, Share, Minus;
    if log == [] {
      MinusZero();
    } else {
      var n := |log| - 1;
      CellFlip(p, log[..n], j);
      assert Flip(log)[..n] == Flip(log[..n]);
      ShareFlip(p, log[n], j);
      JoinMinus(CellOf(p, log[..n], j), Share(p, log[n], j));
    }
  }

  lemma MinusZero()
    ensures Minus(ZERO) == ZERO
  {
  }

  lemma ShareFlip(p: Shape, o: Op, j: nat)
    ensures Share(p, Op(-o.sign, o.key), j) == Minus(Share(p, o, j))
  {
    hide Hits, Masked;
  }

  lemma JoinMinus(a: Entry, b: Entry)
    ensures Join(Minus(a), Minus(b)) == Minus(Join(a, b))
  {
    hide Xor, Xor32;
  }

  // ----- The table -----

  /** The table holds these operations. */
  ghost predicate Tally(p: Shape, log: seq<Op>, table: seq<Entry>) {
    |table| == p.size && forall j :: 0 <= j < |table| ==> table[j] == CellOf(p, log, j)
  }

  lemma MaskStep(a: bv32, c: bv32, mask: bv32)
    requires Masked(a, mask) == a
    ensures Masked(Xor32(a, c), mask) == Xor32(a, Masked(c, mask))
    ensures Masked(Xor32(a, Masked(c, mask)), mask) == Xor32(a, Masked(c, mask))
  {
    hide Masked, Xor32;
    MaskSplits(a, c, mask);
    MaskSplits(a, Masked(c, mask), mask);
    MaskTwice(c, mask);
  }

  lemma MaskSplits(a: bv32, c: bv32, mask: bv32)
    ensures Masked(Xor32(a, c), mask) == Xor32(Masked(a, mask), Masked(c, mask))
  {
  }

  lemma MaskTwice(c: bv32, mask: bv32)
    ensures Masked(Masked(c, mask), mask) == Masked(c, mask)
  {
  }

  lemma {:induction false} CellMasked(p: Shape, log: seq<Op>, j: nat)
    ensures Masked(CellOf(p, log, j).keyCheck, p.mask) == CellOf(p, log, j).keyCheck
  {
    if log == [] {
      assert Masked(0, p.mask) == 0;
    } else {
      var n := |log| - 1;
      CellMasked(p, log[..n], j);
      var e, o := CellOf(p, log[..n], j), log[n];
      MaskStep(e.keyCheck, p.check(o.key), p.mask);
      Xor32Laws(e.keyCheck, 0);
      hide Masked, Xor32, Xor, Hits;
    }
  }

  /** One cell takes a signed key. */
  function Taken(p: Shape, e: Entry, o: Op): (r: Entry) {
    Entry(e.count + o.sign, Xor(e.keySum, o.key), Masked(Xor32(e.keyCheck, p.check(o.key)), p.mask))
  }

  lemma TakenIsJoined(p: Shape, log: seq<Op>, o: Op, j: nat)
    requires Hits(p, o.key, j)
    ensures Taken(p, CellOf(p, log, j), o) == Join(CellOf(p, log, j), Share(p, o, j))
  {
    CellMasked(p, log, j);
    MaskStep(CellOf(p, log, j).keyCheck, p.check(o.key), p.mask);
    hide Masked, Xor32, Xor, Hits, CellOf;
  }

  /** The rows before `i` have taken the key. */
  ghost predicate HalfDone(p: Shape, log: seq<Op>, o: Op, table: seq<Entry>, i: nat)
    requires BucketsPerHash(p) > 0
  {
    |table| == p.size && forall j :: 0 <= j < |table| ==>
      table[j] == if j / BucketsPerHash(p) < i then CellOf(p, log + [o], j) else CellOf(p, log, j)
  }

  lemma CellPlus(p: Shape, log: seq<Op>, o: Op, j: nat)
    ensures CellOf(p, log + [o], j) == Join(CellOf(p, log, j), Share(p, o, j))
  {
    assert (log + [o])[..|log|] == log;
  }

  lemma HalfStep(p: Shape, log: seq<Op>, o: Op, table: seq<Entry>, i: nat)
    requires BucketsPerHash(p) > 0 && i < p.nHash && HalfDone(p, log, o, table, i)
    ensures var c := CellIndex(p, i, o.key);
            c < |table| && HalfDone(p, log, o, table[c := Taken(p, table[c], o)], i + 1)
  {
    var c := CellIndex(p, i, o.key);
    CellIsHit(p, i, o.key);
    TakenIsJoined(p, log, o, c);
    CellPlus(p, log, o, c);
    forall j | 0 <= j < |table| && j / BucketsPerHash(p) == i && j != c
      ensures CellOf(p, log + [o], j) == CellOf(p, log, j)
    {
      OneCellPerRow(p, i, o.key, j);
      CellPlus(p, log, o, j);
      hide CellOf, Join, Hits;
      JoinLaws(CellOf(p, log, j), ZERO);
    }
  }

  lemma RowsDone(p: Shape, log: seq<Op>, o: Op, table: seq<Entry>)
    requires BucketsPerHash(p) > 0 && HalfDone(p, log, o, table, p.nHash)
    ensures Tally(p, log + [o], table)
  {
    hide CellOf, Join;
    forall j | 0 <= j < |table| && j / BucketsPerHash(p) >= p.nHash ensures CellOf(p, log + [o], j) == CellOf(p, log, j) {
      CellPlus(p, log, o, j);
      JoinLaws(CellOf(p, log, j), ZERO);
    }
  }

  lemma NoRows(p: Shape, log: seq<Op>, o: Op, table: seq<Entry>)
    requires BucketsPerHash(p) == 0 && Tally(p, log, table)
    ensures Tally(p, log + [o], table)
  {
    hide CellOf, Join;
    forall j | 0 <= j < |table| ensures CellOf(p, log + [o], j) == CellOf(p, log, j) {
      CellPlus(p, log, o, j);
      JoinLaws(CellOf(p, log, j), ZERO);
    }
  }

  // ----- Net content -----

  /** How often a key is in, counting erased ones negatively. */
  ghost function Net(log: seq<Op>, k: bv64): (n: int) {
    if log == [] then 0
    else Net(log[..|log| - 1], k) + if log[|log| - 1].key == k then log[|log| - 1].sign else 0
  }

  lemma NetPlus(log: seq<Op>, o: Op, k: bv64)
    ensures Net(log + [o], k) == Net(log, k) + if o.key == k then o.sign else 0
  {
    assert (log + [o])[..|log|] == log;
  }

  lemma {:induction false} NetAppend(a: seq<Op>, b: seq<Op>, k: bv64)
    ensures Net(a + b, k) == Net(a, k) + Net(b, k)
  {
    if b == [] {
      assert a + b == a;
    } else {
      var n := |b| - 1;
      assert (a + b)[..|a + b| - 1] == a + b[..n];
      NetAppend(a, b[..n], k);
    }
  }

  lemma {:induction false} NetFlip(log: seq<Op>, k: bv64)
    ensures Net(Flip(log), k) == -Net(log, k)
  {
    if log != [] {
      var n := |log| - 1;
      NetFlip(log[..n], k);
      assert Flip(log)[..n] == Flip(log[..n]);
    }
  }

  /** Cell `j` holds this one key and nothing else. */
  ghost predicate ReallyPure(p: Shape, log: seq<Op>, j: nat, o: Op) {
    Net(log, o.key) == o.sign && Hits(p, o.key, j) && forall k: bv64 :: k != o.key && Hits(p, k, j) ==> Net(log, k) == 0
  }

  ghost predicate ReallyEmpty(p: Shape, log: seq<Op>, j: nat) {
    forall k: bv64 :: Hits(p, k, j) ==> Net(log, k) == 0
  }

  predicate IsPure(p: Shape, e: Entry) {
    (e.count == 1 || e.count == -1) && e.keyCheck == Masked(p.check(e.keySum), p.mask)
  }

  predicate IsEmpty(e: Entry) {
    e.count == 0 && e.keySum == 0 && e.keyCheck == 0
  }

  // ----- Peeling -----

  /** The operations `ops` have been peeled off `log`, each a key that was in with that sign and is out since. */
  ghost predicate Peeled(log: seq<Op>, ops: seq<Op>) {
    && (forall i :: 0 <= i < |ops| ==> (ops[i].sign == 1 || ops[i].sign == -1) && Net(log, ops[i].key) == ops[i].sign)
    && (forall i, j :: 0 <= i < j < |ops| ==> ops[i].key != ops[j].key)
    && forall k: bv64 :: Net(log + Flip(ops), k) == if HasKey(ops, k) then 0 else Net(log, k)
  }

  ghost predicate HasKey(ops: seq<Op>, k: bv64) {
    exists i :: 0 <= i < |ops| && ops[i].key == k
  }

  lemma PeelStep(p: Shape, log: seq<Op>, ops: seq<Op>, j: nat, o: Op)
    requires Peeled(log, ops) && (o.sign == 1 || o.sign == -1) && ReallyPure(p, log + Flip(ops), j, o)
    ensures Peeled(log, ops + [o])
  {
    assert !HasKey(ops, o.key);
    var more := ops + [o];
    assert Flip(more) == Flip(ops) + [Op(-o.sign, o.key)];
    assert log + Flip(more) == log + Flip(ops) + [Op(-o.sign, o.key)];
    forall k: bv64 ensures Net(log + Flip(more), k) == if HasKey(more, k) then 0 else Net(log, k) {
      NetPlus(log + Flip(ops), Op(-o.sign, o.key), k);
      HasKeyMore(ops, o, k);
    }
  }

  lemma HasKeyMore(ops: seq<Op>, o: Op, k: bv64)
    ensures HasKey(ops + [o], k) <==> HasKey(ops, k) || o.key == k
  {
    var more := ops + [o];
    if HasKey(ops, k) {
      var i :| 0 <= i < |ops| && ops[i].key == k;
      assert more[i].key == k;
    }
    if o.key == k { assert more[|ops|].key == k; }
  }

  /** The keys of the operations with a sign. */
  ghost function KeysOf(ops: seq<Op>, sign: int): (r: set<bv64>) {
    set i | 0 <= i < |ops| && ops[i].sign == sign :: ops[i].key
  }

  lemma KeysMore(ops: seq<Op>, o: Op, sign: int)
    ensures KeysOf(ops + [o], sign) == KeysOf(ops, sign) + if o.sign == sign then {o.key} else {}
  {
    var more := ops + [o];
    forall k | k in KeysOf(more, sign) ensures k in KeysOf(ops, sign) + if o.sign == sign then {o.key} else {} {
      var i :| 0 <= i < |more| && more[i].sign == sign && more[i].key == k;
      if i < |ops| { assert ops[i] == more[i]; }
    }
    forall k | k in KeysOf(ops, sign) + if o.sign == sign then {o.key} else {} ensures k in KeysOf(more, sign) {
      if k in KeysOf(ops, sign) {
        var i :| 0 <= i < |ops| && ops[i].sign == sign && ops[i].key == k;
        assert more[i] == ops[i];
      } else {
        assert more[|ops|].key == k;
      }
    }
  }

  /** Each peeled operation is what a cell reported as its one key, at the time. */
  ghost predicate Reported(p: Shape, log: seq<Op>, ops: seq<Op>, cells: seq<nat>) {
    |cells| == |ops| && forall i :: 0 <= i < |ops| ==>
      var e := CellOf(p, log + Flip(ops[..i]), cells[i]);
      IsPure(p, e) && ops[i] == Op(e.count, e.keySum)
  }

  /** The reports were true: the cells held just those keys, and the first row is really empty at the end. */
  ghost predicate Honest(p: Shape, log: seq<Op>, ops: seq<Op>, cells: seq<nat>) {
    && |cells| == |ops| && (forall i :: 0 <= i < |ops| ==> ReallyPure(p, log + Flip(ops[..i]), cells[i], ops[i]))
    && forall j :: 0 <= j < BucketsPerHash(p) ==> ReallyEmpty(p, log + Flip(ops), j)
  }

  lemma {:induction false} HonestPeels(p: Shape, log: seq<Op>, ops: seq<Op>, cells: seq<nat>, n: nat)
    requires n <= |ops| == |cells| && Reported(p, log, ops, cells)
    requires forall i :: 0 <= i < |ops| ==> ReallyPure(p, log + Flip(ops[..i]), cells[i], ops[i])
    ensures Peeled(log, ops[..n])
  {
    hide CellOf, Peeled, ReallyPure;
    if n == 0 {
      NothingPeeled(log);
    } else {
      HonestPeels(p, log, ops, cells, n - 1);
      PeelStep(p, log, ops[..n - 1], cells[n - 1], ops[n - 1]);
      assert ops[..n] == ops[..n - 1] + [ops[n - 1]];
    }
  }

  lemma NothingPeeled(log: seq<Op>)
    ensures Peeled(log, [])
  {
    assert log + Flip([]) == log;
  }

  /** If every cell reported pure or empty was so, the lists are exactly the keys that are in, in each direction. */
  lemma ListsExact(p: Shape, log: seq<Op>, ops: seq<Op>, cells: seq<nat>, k: bv64)
    requires BucketsPerHash(p) > 0 && Reported(p, log, ops, cells) && Honest(p, log, ops, cells)
    ensures k in KeysOf(ops, 1) <==> Net(log, k) == 1
    ensures k in KeysOf(ops, -1) <==> Net(log, k) == -1
    ensures -1 <= Net(log, k) <= 1
  {
    HonestPeels(p, log, ops, cells, |ops|);
    assert ops[..|ops|] == ops;
    CellIsHit(p, 0, k);
    var j := CellIndex(p, 0, k);
    assert j < BucketsPerHash(p) && ReallyEmpty(p, log + Flip(ops), j);
    assert Net(log + Flip(ops), k) == 0;
    if HasKey(ops, k) {
      var i :| 0 <= i < |ops| && ops[i].key == k;
      assert Net(log, k) == ops[i].sign;
      assert ops[i].key in KeysOf(ops, ops[i].sign);
    }
  }

  /** For a difference of two sets of keys, the net content is the set difference in each direction. */
  lemma NetOfDifference(a: seq<Op>, b: seq<Op>, k: bv64)
    ensures Net(a + Flip(b), k) == Net(a, k) - Net(b, k)
  {
    NetAppend(a, Flip(b), k);
    NetFlip(b, k);
  }

  /** The log amounts to a set of keys, each in once. */
  ghost predicate Amounts(log: seq<Op>, keys: set<bv64>) {
    forall k: bv64 :: Net(log, k) == if k in keys then 1 else 0
  }

  function Insertions(keys: seq<bv64>): (log: seq<Op>) {
    seq(|keys|, i requires 0 <= i < |keys| => Op(1, keys[i]))
  }

  /** Inserting keys without a repetition. */
  lemma {:induction false} InsertionsAmount(keys: seq<bv64>)
    requires forall i, j :: 0 <= i < j < |keys| ==> keys[i] != keys[j]
    ensures Amounts(Insertions(keys), set k | k in keys)
  {
    if keys != [] {
      var n := |keys| - 1;
      InsertionsAmount(keys[..n]);
      assert Insertions(keys)[..n] == Insertions(keys[..n]);
      assert keys == keys[..n] + [keys[n]];
      var log := Insertions(keys);
      forall k: bv64 ensures Net(log, k) == if k in keys then 1 else 0 {
        assert Net(log, k) == Net(log[..n], k) + if keys[n] == k then 1 else 0;
        AmountOf(log[..n], (set x | x in keys[..n]), k);
      }
    }
  }

  /** Erasing a key takes back its insertion, in every cell. */
  lemma EraseUndoes(p: Shape, log: seq<Op>, k: bv64, j: nat)
    ensures CellOf(p, log + [Op(1, k)] + [Op(-1, k)], j) == CellOf(p, log, j)
  {
    hide CellOf, Share;
    var o := Op(1, k);
    CellPlus(p, log, o, j);
    CellPlus(p, log + [o], Op(-1, k), j);
    ShareFlip(p, o, j);
    JoinAssoc(CellOf(p, log, j), Share(p, o, j), Minus(Share(p, o, j)));
    JoinLaws(Share(p, o, j), ZERO);
    JoinLaws(CellOf(p, log, j), ZERO);
  }

  // ----- True reports are made -----

  ghost predicate UnitSigns(log: seq<Op>) {
    forall i :: 0 <= i < |log| ==> log[i].sign == 1 || log[i].sign == -1
  }

  /** A key that is in with a sign was put in with that sign. */
  lemma {:induction false} PutIn(log: seq<Op>, k: bv64, sign: int) returns (i: nat)
    requires UnitSigns(log) && (sign == 1 || sign == -1) && Net(log, k) * sign > 0
    ensures i < |log| && log[i] == Op(sign, k)
  {
    var n := |log| - 1;
    if log[n] == Op(sign, k) {
      i := n;
    } else {
      i := PutIn(log[..n], k, sign);
    }
  }

  lemma NetWithout(log: seq<Op>, i: nat, k: bv64)
    requires i < |log|
    ensures Net(log, k) == Net(log[..i] + log[i + 1..], k) + if log[i].key == k then log[i].sign else 0
  {
    var x, y := log[..i], log[i + 1..];
    assert log == x + [log[i]] + y;
    NetAppend(x + [log[i]], y, k);
    NetPlus(x, log[i], k);
    NetAppend(x, y, k);
  }

  lemma CellWithout(p: Shape, log: seq<Op>, i: nat, j: nat)
    requires i < |log|
    ensures CellOf(p, log, j) == Join(CellOf(p, log[..i] + log[i + 1..], j), Share(p, log[i], j))
  {
    var x, y := log[..i], log[i + 1..];
    assert log == x + ([log[i]] + y);
    hide CellOf, Join, Share;
    CellAppend(p, x, [log[i]] + y, j);
    CellAppend(p, [log[i]], y, j);
    CellAppend(p, x, y, j);
    SingleCell(p, log[i], j);
    Rotate(CellOf(p, x, j), CellOf(p, y, j), Share(p, log[i], j));
  }

  /** A cell that holds nothing is reported empty. */
  lemma {:induction false} EmptyReported(p: Shape, log: seq<Op>, j: nat)
    requires UnitSigns(log) && ReallyEmpty(p, log, j)
    ensures CellOf(p, log, j) == ZERO
    decreases |log|
  {
    if log != [] {
      var n := |log| - 1;
      var o, rest := log[n], log[..n];
      hide Join, Share, Hits;
      forall k: bv64 ensures Net(log, k) == Net(rest, k) + if o.key == k then o.sign else 0 {
      }
      if Hits(p, o.key, j) {
        EmptyPair(p, log, j);
      } else {
        EmptyReported(p, rest, j);
        NoShare(p, o, j);
      }
    }
  }

  lemma NoShare(p: Shape, o: Op, j: nat)
    requires !Hits(p, o.key, j)
    ensures Join(ZERO, Share(p, o, j)) == ZERO
  {
    JoinLaws(ZERO, ZERO);
  }

  /** The last operation is undone by an earlier one; without the two, the cell is the same. */
  lemma {:induction false} EmptyPair(p: Shape, log: seq<Op>, j: nat)
    requires log != [] && UnitSigns(log) && ReallyEmpty(p, log, j) && Hits(p, log[|log| - 1].key, j)
    ensures CellOf(p, log, j) == ZERO
    decreases |log|, 0
  {
    hide Join, Share, Hits;
    var n := |log| - 1;
    var o, rest := log[n], log[..n];
    assert Net(rest, o.key) == -o.sign;
    var i := PutIn(rest, o.key, -o.sign);
    var less := rest[..i] + rest[i + 1..];
    forall k: bv64 | Hits(p, k, j) ensures Net(less, k) == 0 {
      NetWithout(rest, i, k);
    }
    EmptyReported(p, less, j);
    CellWithout(p, rest, i, j);
    ShareFlip(p, o, j);
    hide CellOf, Minus;
    assert CellOf(p, log, j) == Join(CellOf(p, rest, j), Share(p, o, j)) by { CellPlus(p, rest, o, j); assert log == rest + [o]; }
    JoinLaws(Share(p, o, j), ZERO);
    JoinLaws(Minus(Share(p, o, j)), Share(p, o, j));
  }

  /** A cell that holds one key is reported pure, with that key and its sign. */
  lemma PureReported(p: Shape, log: seq<Op>, j: nat, o: Op)
    requires UnitSigns(log) && (o.sign == 1 || o.sign == -1) && ReallyPure(p, log, j, o)
    ensures CellOf(p, log, j) == One(p, o) && IsPure(p, CellOf(p, log, j))
  {
    var back := Op(-o.sign, o.key);
    forall k: bv64 | Hits(p, k, j) ensures Net(log + [back], k) == 0 {
      NetPlus(log, back, k);
    }
    EmptyReported(p, log + [back], j);
    CellPlus(p, log, back, j);
    ShareFlip(p, o, j);
    hide CellOf;
    Undo(CellOf(p, log, j), One(p, o));
  }

  lemma Undo(a: Entry, b: Entry)
    requires Join(a, Minus(b)) == ZERO
    ensures a == b
  {
  }

  class Sketch {
    const p: Shape
    var table: seq<Entry>
    var isModified: bool
    /** The keys put in and taken out so far. */
    ghost var log: seq<Op>

    ghost predicate Valid()
      reads this
    {
      Tally(p, log, table)
    }

    constructor (p: Shape)
      ensures Valid() && log == [] && this.p == p
    {
      this.p := p;
      table := seq(p.size, _ => ZERO);
      isModified := false;
      log := [];
    }

    /** Adds or removes a key in one cell of each row. */
    method Update(sign: int, k: bv64)
      requires Valid()
      modifies this
      ensures Valid() && log == old(log) + [Op(sign, k)]
    {
      hide CellOf, Taken, Hits;
      ghost var o := Op(sign, k);
      var buckets := BucketsPerHash(p);
      if buckets == 0 {
        NoRows(p, log, o, table);
        log := log + [o];
        return;
      }
      for i := 0 to p.nHash
        invariant HalfDone(p, log, o, table, i) && log == old(log)
      {
        HalfStep(p, log, o, table, i);
        var c := CellIndex(p, i, k);
        table := table[c := Taken(p, table[c], Op(sign, k))];
      }
      RowsDone(p, log, o, table);
      isModified := true;
      log := log + [o];
    }

    method Insert(k: bv64)
      requires Valid()
      modifies this
      ensures Valid() && log == old(log) + [Op(1, k)]
    {
      Update(1, k);
    }

    method Erase(k: bv64)
      requires Valid()
      modifies this
      ensures Valid() && log == old(log) + [Op(-1, k)]
    {
      Update(-1, k);
    }

    constructor Copy(other: Sketch)
      requires other.Valid()
      ensures Valid() && p == other.p && log == other.log && table == other.table
    {
      p, table, isModified, log := other.p, other.table, false, other.log;
    }

    /** Cell by cell; for tables of one shape this is the table of inserting the one and erasing the other. */
    method Subtract(other: Sketch) returns (threw: bool, r: Sketch)
      requires Valid() && other.Valid()
      ensures threw <==> p.size != other.p.size
      ensures !threw ==> fresh(r) && r.p == p && |r.table| == p.size
      ensures !threw ==> forall j :: 0 <= j < p.size ==> r.table[j] == Less(p, table[j], other.table[j])
      ensures !threw && p == other.p ==> r.Valid() && r.log == log + Flip(other.log)
    {
      if |table| != |other.table| {
        return true, this;
      }
      threw := false;
      r := new Sketch.Copy(this);
      hide CellOf, Less;
      for i := 0 to |table|
        invariant |r.table| == p.size
        invariant forall j :: 0 <= j < i ==> r.table[j] == Less(p, table[j], other.table[j])
        invariant forall j :: i <= j < |table| ==> r.table[j] == table[j]
      {
        r.table := r.table[i := Less(p, r.table[i], other.table[i])];
      }
      if p == other.p {
        forall j | 0 <= j < |table| ensures r.table[j] == CellOf(p, log + Flip(other.log), j) {
          LessIsFlipped(p, log, other.log, j);
        }
      }
      r.log := log + Flip(other.log);
    }
  }

  function Less(p: Shape, a: Entry, b: Entry): (r: Entry) {
    Entry(a.count - b.count, Xor(a.keySum, b.keySum), Masked(Xor32(a.keyCheck, b.keyCheck), p.mask))
  }

  lemma LessIsFlipped(p: Shape, a: seq<Op>, b: seq<Op>, j: nat)
    ensures Less(p, CellOf(p, a, j), CellOf(p, b, j)) == CellOf(p, a + Flip(b), j)
  {
    CellAppend(p, a, Flip(b), j);
    CellFlip(p, b, j);
    CellMasked(p, a, j);
    CellMasked(p, b, j);
    hide CellOf, Xor, Xor32, Masked;
    MaskSplits(CellOf(p, a, j).keyCheck, CellOf(p, b, j).keyCheck, p.mask);
  }

  /** Peels a copy of the table until a pass finds nothing or the bound is reached.  `ops` is what was peeled from
      `cells`; the answer is yes exactly if the cells of the first row then report empty. */
  method ListEntries(t: Sketch, bound: nat)
    returns (ok: bool, positive: set<bv64>, negative: set<bv64>, ghost ops: seq<Op>, ghost cells: seq<nat>)
    requires t.Valid()
    ensures Reported(t.p, t.log, ops, cells)
    ensures positive == KeysOf(ops, 1) && negative == KeysOf(ops, -1)
    ensures ok <==> FirstRowEmpty(t.p, t.log + Flip(ops))
  {
    var peeled := new Sketch.Copy(t);
    var total := 0;
    ghost var log := t.log;
    positive, negative, ops, cells := {}, {}, [], [];
    assert log + Flip(ops) == log;
    assert KeysOf(ops, 1) == {} && KeysOf(ops, -1) == {};
    hide CellOf, KeysOf, Hits, Reported;
    NothingReported(t.p, log);
    var again := true;
    while again
      invariant peeled.Valid() && peeled.p == t.p && fresh(peeled) && t.log == log && peeled.log == log + Flip(ops)
      invariant positive == KeysOf(ops, 1) && negative == KeysOf(ops, -1) && Reported(t.p, log, ops, cells)
      decreases again, bound - total
    {
      var erased;
      erased, positive, negative, ops, cells := PeelOnce(peeled, positive, negative, log, ops, cells);
      total := total + erased;
      again := erased > 0 && total < bound;
    }
    ok := CheckFirstRow(peeled);
  }

  /** Reconciles two sets of keys by their tables: if the listing of the difference ends well and no report was false,
      it is what each set has and the other has not. */
  method Reconcile(a: Sketch, b: Sketch, ghost keysA: set<bv64>, ghost keysB: set<bv64>, bound: nat)
    returns (ok: bool, positive: set<bv64>, negative: set<bv64>, ghost ops: seq<Op>, ghost cells: seq<nat>)
    requires a.Valid() && b.Valid() && a.p == b.p && Amounts(a.log, keysA) && Amounts(b.log, keysB)
    ensures ok && Honest(a.p, a.log + Flip(b.log), ops, cells) ==> positive == keysA - keysB && negative == keysB - keysA
  {
    var threw, d := a.Subtract(b);
    ok, positive, negative, ops, cells := ListEntries(d, bound);
    hide CellOf, Reported, Honest, Amounts, Flip;
    if ok && Honest(a.p, a.log + Flip(b.log), ops, cells) {
      forall k: bv64 ensures (k in positive <==> k in keysA - keysB) && (k in negative <==> k in keysB - keysA) {
        ListsExact(d.p, d.log, ops, cells, k);
        NetOfDifference(a.log, b.log, k);
        AmountOf(a.log, keysA, k);
        AmountOf(b.log, keysB, k);
      }
    }
  }

  lemma AmountOf(log: seq<Op>, keys: set<bv64>, k: bv64)
    requires Amounts(log, keys)
    ensures Net(log, k) == if k in keys then 1 else 0
  {
  }

  /** Every cell of the first hash function reports empty. */
  ghost predicate FirstRowEmpty(p: Shape, log: seq<Op>) {
    BucketsPerHash(p) > 0 && forall j :: 0 <= j < BucketsPerHash(p) ==> IsEmpty(CellOf(p, log, j))
  }

  method CheckFirstRow(t: Sketch) returns (ok: bool)
    requires t.Valid()
    ensures ok <==> FirstRowEmpty(t.p, t.log)
  {
    hide CellOf, IsEmpty;
    var buckets := BucketsPerHash(t.p);
    if buckets == 0 {
      return false;
    }
    RowZero(t.p);
    for i := 0 to buckets
      invariant forall j :: 0 <= j < i ==> IsEmpty(CellOf(t.p, t.log, j))
    {
      if !IsEmpty(t.table[i]) {
        return false;
      }
    }
    return true;
  }

  lemma NothingReported(p: Shape, log: seq<Op>)
    ensures Reported(p, log, [], [])
  {
  }

  lemma RowZero(p: Shape)
    ensures BucketsPerHash(p) <= p.size
  {
    if p.nHash > 0 { DivLe(p.size, p.nHash); }
  }

  /** One pass over the cells; each cell that reports one key gives it up. */
  method PeelOnce(peeled: Sketch, positive0: set<bv64>, negative0: set<bv64>,
                  ghost log: seq<Op>, ghost ops0: seq<Op>, ghost cells0: seq<nat>)
    returns (erased: nat, positive: set<bv64>, negative: set<bv64>, ghost ops: seq<Op>, ghost cells: seq<nat>)
    requires peeled.Valid() && peeled.log == log + Flip(ops0) && Reported(peeled.p, log, ops0, cells0)
    requires positive0 == KeysOf(ops0, 1) && negative0 == KeysOf(ops0, -1)
    modifies peeled
    ensures peeled.Valid() && peeled.log == log + Flip(ops) && Reported(peeled.p, log, ops, cells)
    ensures positive == KeysOf(ops, 1) && negative == KeysOf(ops, -1)
  {
    hide CellOf, KeysOf, Hits, Reported;
    erased, positive, negative, ops, cells := 0, positive0, negative0, ops0, cells0;
    var i := 0;
    while i < |peeled.table|
      invariant peeled.Valid() && peeled.log == log + Flip(ops) && i <= |peeled.table|
      invariant positive == KeysOf(ops, 1) && negative == KeysOf(ops, -1) && Reported(peeled.p, log, ops, cells)
    {
      var e := peeled.table[i];
      if IsPure(peeled.p, e) {
        ghost var o := Op(e.count, e.keySum);
        KeysMore(ops, o, 1);
        KeysMore(ops, o, -1);
        if e.count == 1 {
          positive := positive + {e.keySum};
        } else {
          negative := negative + {e.keySum};
        }
        ReportMore(peeled.p, log, ops, cells, i, o);
        peeled.Update(-e.count, e.keySum);
        assert Flip(ops + [o]) == Flip(ops) + [Op(-o.sign, o.key)];
        ops, cells := ops + [o], cells + [i];
        erased := erased + 1;
      }
      i := i + 1;
    }
  }

  lemma ReportMore(p: Shape, log: seq<Op>, ops: seq<Op>, cells: seq<nat>, j: nat, o: Op)
    requires Reported(p, log, ops, cells)
    requires var e := CellOf(p, log + Flip(ops), j); IsPure(p, e) && o == Op(e.count, e.keySum)
    ensures Reported(p, log, ops + [o], cells + [j])
  {
    hide CellOf, IsPure;
    var more, all := ops + [o], cells + [j];
    forall i | 0 <= i < |more|
      ensures var e := CellOf(p, log + Flip(more[..i]), all[i]); IsPure(p, e) && more[i] == Op(e.count, e.keySum)
    {
      if i < |ops| {
        assert more[..i] == ops[..i];
      } else {
        assert more[..i] == ops;
      }
    }
  }
}
