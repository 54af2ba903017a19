/** The cashaddr codec: a checksum over GF(32), and strings of a prefix, a separator and 5-bit values. */
module CashAddr {

  // ----- Exclusive or -----

  function Xor(a: bv40, b: bv40): (r: bv40) {
    a ^ b
  }

  lemma XorComm(a: bv40, b: bv40)
    ensures Xor(a, b) == Xor(b, a)
  {
  }

  lemma XorAssoc(a: bv40, b: bv40, c: bv40)
    ensures Xor(Xor(a, b), c) == Xor(a, Xor(b, c))
  {
  }

  lemma Regroup(a: bv40, b: bv40, c: bv40, d: bv40)
    ensures Xor(Xor(a, b), Xor(c, d)) == Xor(Xor(a, c), Xor(b, d))
  {
    hide Xor;
    XorAssoc(a, b, Xor(c, d));
    XorAssoc(b, c, d);
    XorComm(b, c);
    XorAssoc(c, b, d);
    XorAssoc(a, c, Xor(b, d));
  }

  lemma XorLaws(a: bv40, b: bv40)
    ensures Xor(a, b) == 0 <==> a == b
    ensures Xor(a, a) == 0 && Xor(a, 0) == a && Xor(0, a) == a
    ensures Xor(a, Xor(a, b)) == b
  {
  }

  // ----- The checksum polynomial -----

  /** `k` if the selected bit of `c` is set. */
  function Pick(c: bv40, bit: bv40, k: bv40): (r: bv40) {
    if c & bit != 0 then k else 0
  }

  const BIT35: bv40 := 0x08_0000_0000
  const BIT36: bv40 := 0x10_0000_0000
  const BIT37: bv40 := 0x20_0000_0000
  const BIT38: bv40 := 0x40_0000_0000
  const BIT39: bv40 := 0x80_0000_0000

  function Sum(a: bv40, b: bv40, c: bv40, d: bv40, e: bv40): (r: bv40) {
    Xor(Xor(Xor(Xor(a, b), c), d), e)
  }

  /** What the leading coefficient adds when it is reduced by the generator. */
  function Reduced(c: bv40): (r: bv40) {
    Sum(Pick(c, BIT35, 0x98_f2bc_8e61), Pick(c, BIT36, 0x79_b76d_99e2), Pick(c, BIT37, 0xf3_3e5f_b3c4),
        Pick(c, BIT38, 0xae_2eab_e2a8), Pick(c, BIT39, 0x1e_4f43_e470))
  }

  function Shifted(c: bv40): (r: bv40) {
    (c & 0x07_ffff_ffff) << 5
  }

  function Wide(d: bv8): (r: bv40) {
    d as bv40
  }

  /** One round of the checksum: multiply by x, add the next coefficient, reduce by the generator. */
  function Step(c: bv40, d: bv8): (r: bv40) {
    Xor(Xor(Shifted(c), Wide(d)), Reduced(c))
  }

  lemma PickLinear(a: bv40, b: bv40, bit: bv40, k: bv40)
    requires bit in {BIT35, BIT36, BIT37, BIT38, BIT39}
    ensures Pick(Xor(a, b), bit, k) == Xor(Pick(a, bit, k), Pick(b, bit, k))
  {
    assert (a ^ b) & bit == (a & bit) ^ (b & bit);
    Single(a, bit);
    Single(b, bit);
    assert bit ^ bit == 0 && bit ^ 0 == bit && 0 ^ bit == bit;
    assert k ^ k == 0 && k ^ 0 == k && 0 ^ k == k;
  }

  lemma Single(a: bv40, bit: bv40)
    requires bit in {BIT35, BIT36, BIT37, BIT38, BIT39}
    ensures a & bit == 0 || a & bit == bit
    ensures bit != 0
  {
  }

  lemma SumLinear(a0: bv40, b0: bv40, a1: bv40, b1: bv40, a2: bv40, b2: bv40, a3: bv40, b3: bv40, a4: bv40, b4: bv40)
    ensures Sum(Xor(a0, b0), Xor(a1, b1), Xor(a2, b2), Xor(a3, b3), Xor(a4, b4))
         == Xor(Sum(a0, a1, a2, a3, a4), Sum(b0, b1, b2, b3, b4))
  {
    Regroup(a0, b0, a1, b1);
    Regroup(Xor(a0, a1), Xor(b0, b1), a2, b2);
    Regroup(Xor(Xor(a0, a1), a2), Xor(Xor(b0, b1), b2), a3, b3);
    Regroup(Xor(Xor(Xor(a0, a1), a2), a3), Xor(Xor(Xor(b0, b1), b2), b3), a4, b4);
    hide Xor;
  }

  lemma ReducedLinear(a: bv40, b: bv40)
    ensures Reduced(Xor(a, b)) == Xor(Reduced(a), Reduced(b))
  {
    hide Pick, Sum, Xor;
    PickLinear(a, b, BIT35, 0x98_f2bc_8e61);
    PickLinear(a, b, BIT36, 0x79_b76d_99e2);
    PickLinear(a, b, BIT37, 0xf3_3e5f_b3c4);
    PickLinear(a, b, BIT38, 0xae_2eab_e2a8);
    PickLinear(a, b, BIT39, 0x1e_4f43_e470);
    SumLinear(Pick(a, BIT35, 0x98_f2bc_8e61), Pick(b, BIT35, 0x98_f2bc_8e61),
              Pick(a, BIT36, 0x79_b76d_99e2), Pick(b, BIT36, 0x79_b76d_99e2),
              Pick(a, BIT37, 0xf3_3e5f_b3c4), Pick(b, BIT37, 0xf3_3e5f_b3c4),
              Pick(a, BIT38, 0xae_2eab_e2a8), Pick(b, BIT38, 0xae_2eab_e2a8),
              Pick(a, BIT39, 0x1e_4f43_e470), Pick(b, BIT39, 0x1e_4f43_e470));
  }

  lemma PartsLinear(a: bv40, b: bv40, d: bv8, e: bv8)
    ensures Shifted(Xor(a, b)) == Xor(Shifted(a), Shifted(b))
    ensures Wide(d ^ e) == Xor(Wide(d), Wide(e))
  {
  }

  /** A round is linear over exclusive or. */
  lemma StepLinear(a: bv40, b: bv40, d: bv8, e: bv8)
    ensures Step(Xor(a, b), d ^ e) == Xor(Step(a, d), Step(b, e))
  {
    hide Xor, Shifted, Reduced, Wide;
    PartsLinear(a, b, d, e);
    ReducedLinear(a, b);
    Regroup(Shifted(a), Shifted(b), Wide(d), Wide(e));
    Regroup(Xor(Shifted(a), Wide(d)), Xor(Shifted(b), Wide(e)), Reduced(a), Reduced(b));
  }

  /** The low bits of the result show the coefficient that was reduced. */
  lemma ReducedLow(c: bv40)
    ensures Reduced(c) & 0x1f == c >> 35
  {
  }

  lemma NothingReduced(c: bv40)
    requires c >> 35 == 0
    ensures Reduced(c) == 0
  {
    assert c & BIT35 == 0 && c & BIT36 == 0 && c & BIT37 == 0 && c & BIT38 == 0 && c & BIT39 == 0;
  }

  lemma StepKernel(c: bv40)
    requires Step(c, 0) == 0
    ensures c == 0
  {
    ReducedLow(c);
    assert Wide(0) == 0;
    assert Shifted(c) & 0x1f == 0;
    assert c >> 35 == 0 by {
      hide Reduced, Shifted, Xor;
      XorLaws(Shifted(c), Reduced(c));
    }
    NothingReduced(c);
    hide Reduced;
    assert c & 0x07_ffff_ffff == 0;
  }

  /** No two states lead to the same state on the same input. */
  lemma StepInjective(a: bv40, b: bv40, d: bv8)
    requires Step(a, d) == Step(b, d)
    ensures a == b
  {
    assert d ^ d == 0;
    hide Step, Xor;
    StepLinear(a, b, d, d);
    XorLaws(Step(a, d), Step(b, d));
    StepKernel(Xor(a, b));
    XorLaws(a, b);
  }

  lemma StepSmall(c: bv40, d: bv8)
    requires c <= 0x07_ffff_ffff && d < 32
    ensures Step(c, d) == (c << 5) ^ (d as bv40)
    ensures Step(c, d) == 0 <==> c == 0 && d == 0
  {
    NothingReduced(c);
    hide Reduced;
  }

  // ----- Whole inputs -----

  /** The state after an input. */
  function Poly(c: bv40, v: seq<bv8>): (r: bv40) {
    if v == [] then c else Step(Poly(c, v[..|v| - 1]), v[|v| - 1])
  }

  method PolyMod(v: seq<bv8>) returns (c: bv40)
    ensures c == Poly(1, v)
  {
    hide Step;
    c := 1;
    for i := 0 to |v|
      invariant c == Poly(1, v[..i])
    {
      assert v[..i + 1][..i] == v[..i];
      c := Step(c, v[i]);
    }
    assert v[..|v|] == v;
  }

  lemma {:induction false} PolyAppend(c: bv40, u: seq<bv8>, v: seq<bv8>)
    ensures Poly(c, u + v) == Poly(Poly(c, u), v)
  {
    hide Step;
    if v == [] {
      assert u + v == u;
    } else {
      var n := |v| - 1;
      PolyAppend(c, u, v[..n]);
      assert (u + v)[..|u + v| - 1] == u + v[..n];
    }
  }

  /** The sum of two values. */
  function Add(a: bv8, b: bv8): (r: bv8) {
    a ^ b
  }

  function XorAll(u: seq<bv8>, v: seq<bv8>): (r: seq<bv8>)
    requires |u| == |v|
    ensures |r| == |u| && forall i :: 0 <= i < |r| ==> r[i] == Add(u[i], v[i])
  {
    seq(|u|, i requires 0 <= i < |u| => Add(u[i], v[i]))
  }

  lemma {:induction false} PolyLinear(a: bv40, b: bv40, u: seq<bv8>, v: seq<bv8>)
    requires |u| == |v|
    ensures Poly(Xor(a, b), XorAll(u, v)) == Xor(Poly(a, u), Poly(b, v))
  {
    hide Step, Xor;
    if u != [] {
      var n := |u| - 1;
      PolyLinear(a, b, u[..n], v[..n]);
      assert XorAll(u, v)[..n] == XorAll(u[..n], v[..n]);
      StepLinear(Poly(a, u[..n]), Poly(b, v[..n]), u[n], v[n]);
    }
  }

  lemma {:induction false} PolyInjective(a: bv40, b: bv40, v: seq<bv8>)
    requires Poly(a, v) == Poly(b, v)
    ensures a == b
  {
    hide Step;
    if v != [] {
      var n := |v| - 1;
      StepInjective(Poly(a, v[..n]), Poly(b, v[..n]), v[n]);
      PolyInjective(a, b, v[..n]);
    }
  }

  // ----- Eight values fill the state -----

  predicate FiveBits(v: seq<bv8>) {
    forall i :: 0 <= i < |v| ==> v[i] < 32
  }

  /** The largest state that `k` values can fill. */
  function Cap(k: nat): (r: bv40)
    requires k <= 8
  {
    if k == 0 then 0 else if k == 1 then 0x1f else if k == 2 then 0x3ff else if k == 3 then 0x7fff
    else if k == 4 then 0xf_ffff else if k == 5 then 0x1ff_ffff else if k == 6 then 0x3fff_ffff
    else if k == 7 then 0x07_ffff_ffff else 0xff_ffff_ffff
  }

  lemma CapStep(c: bv40, d: bv8, k: nat)
    requires k <= 7 && c <= Cap(k) && d < 32
    ensures c <= 0x07_ffff_ffff && (c << 5) ^ (d as bv40) <= Cap(k + 1)
  {
  }

  /** Up to eight values from an empty state: nothing is reduced, and only zeros give zero. */
  lemma {:induction false} PolySmall(w: seq<bv8>)
    requires |w| <= 8 && FiveBits(w)
    ensures Poly(0, w) <= Cap(|w|)
    ensures Poly(0, w) == 0 ==> forall i :: 0 <= i < |w| ==> w[i] == 0
  {
    hide Step;
    if w != [] {
      var n := |w| - 1;
      PolySmall(w[..n]);
      hide Cap;
      var c := Poly(0, w[..n]);
      CapStep(c, w[n], n);
      StepSmall(c, w[n]);
    }
  }

  function Drop(x: bv40): (r: bv40) {
    x >> 5
  }

  function Low(x: bv40): (r: bv8) {
    (x & 0x1f) as bv8
  }

  /** A state shifted right by `n` groups of five bits. */
  function Down(m: bv40, n: nat): (r: bv40) {
    if n == 0 then m else Drop(Down(m, n - 1))
  }

  /** One of the eight 5-bit groups of a state, the highest first. */
  function Group(m: bv40, i: nat): (r: bv8)
    requires i < 8
  {
    Low(Down(m, 7 - i))
  }

  function Unpack(m: bv40): (r: seq<bv8>)
    ensures |r| == 8 && forall i :: 0 <= i < 8 ==> r[i] == Group(m, i)
  {
    seq(8, i requires 0 <= i < 8 => Group(m, i))
  }

  lemma NextGroup(x: bv40)
    ensures Step(Drop(x), Low(x)) == x && Low(x) < 32
  {
    hide Step, Drop, Low;
    Rejoin(x);
    StepSmall(Drop(x), Low(x));
  }

  lemma Rejoin(x: bv40)
    ensures Drop(x) <= 0x07_ffff_ffff && Low(x) < 32
    ensures (Drop(x) << 5) ^ (Low(x) as bv40) == x
  {
  }

  lemma {:induction false} DownCap(m: bv40, n: nat)
    requires n <= 8
    ensures Down(m, n) <= Cap(8 - n)
  {
    if n > 0 {
      DownCap(m, n - 1);
      CapDown(Down(m, n - 1), 8 - n);
    }
  }

  lemma CapDown(x: bv40, k: nat)
    requires k <= 7 && x <= Cap(k + 1)
    ensures Drop(x) <= Cap(k)
  {
  }

  lemma {:induction false} PackPrefix(m: bv40, n: nat)
    requires n <= 8
    ensures Poly(0, Unpack(m)[..n]) == Down(m, 8 - n)
  {
    hide Step, Drop, Low;
    if n == 0 {
      DownCap(m, 8);
    } else {
      PackPrefix(m, n - 1);
      var w := Unpack(m);
      assert w[..n][..n - 1] == w[..n - 1];
      NextGroup(Down(m, 8 - n));
    }
  }

  /** The groups of a state, put into an empty one, rebuild it. */
  lemma PackUnpack(m: bv40)
    ensures Poly(0, Unpack(m)) == m && FiveBits(Unpack(m))
  {
    PackPrefix(m, 8);
    assert Unpack(m)[..8] == Unpack(m);
    forall i | 0 <= i < 8 ensures Unpack(m)[i] < 32 {
      NextGroup(Down(m, 7 - i));
    }
  }

  // ----- Fewer than eight values -----

  function Blank(k: nat): (r: seq<bv8>)
    ensures |r| == k
  {
    seq(k, i => 0)
  }

  /** What has to be put in to bring the state from `c` to 1 with `k` values. */
  function Wanting(c: bv40, k: nat): (r: bv40) {
    Xor(Poly(c, Blank(k)), 1)
  }

  lemma ReachesOne(c: bv40, w: seq<bv8>)
    ensures Poly(c, w) == 1 <==> Poly(0, w) == Wanting(c, |w|)
  {
    var z := Blank(|w|);
    assert XorAll(z, w) == w by {
      forall i | 0 <= i < |w| ensures XorAll(z, w)[i] == w[i] { assert 0 ^ w[i] == w[i]; }
    }
    PolyLinear(c, 0, z, w);
    var x, y := Poly(c, z), Poly(0, w);
    hide Poly, Xor;
    XorLaws(c, 0);
    XorLaws(x, y);
    XorLaws(x, 1);
  }

  /** The last `k` groups of a state that `k` values can fill rebuild it. */
  lemma PackShort(m: bv40, k: nat)
    requires k <= 8 && m <= Cap(k)
    ensures Poly(0, Unpack(m)[8 - k..]) == m && FiveBits(Unpack(m)[8 - k..])
  {
    hide Step, Cap, Unpack, Down;
    var w := Unpack(m);
    PackUnpack(m);
    PackPrefix(m, 8 - k);
    DownEmpty(m, k);
    assert w == w[..8 - k] + w[8 - k..];
    PolyAppend(0, w[..8 - k], w[8 - k..]);
  }

  lemma {:induction false} DownEmpty(m: bv40, k: nat)
    requires k <= 8 && m <= Cap(k)
    ensures Down(m, k) == 0
  {
    DownWithin(m, k, k);
  }

  lemma {:induction false} DownWithin(m: bv40, k: nat, n: nat)
    requires n <= k <= 8 && m <= Cap(k)
    ensures Down(m, n) <= Cap(k - n)
  {
    hide Drop;
    if n > 0 {
      DownWithin(m, k, n - 1);
      CapDown(Down(m, n - 1), k - n);
    }
  }

  ghost predicate Closes(c: bv40, w: seq<bv8>) {
    FiveBits(w) && Poly(c, w) == 1
  }

  lemma Closing(c: bv40, k: nat) returns (w: seq<bv8>)
    requires k <= 8 && Wanting(c, k) <= Cap(k)
    ensures |w| == k && Closes(c, w)
  {
    var m := Wanting(c, k);
    w := Unpack(m)[8 - k..];
    hide Poly, Cap, Wanting, Unpack, FiveBits;
    PackShort(m, k);
    ReachesOne(c, w);
  }

  lemma ClosesSmall(c: bv40, w: seq<bv8>)
    requires |w| <= 8 && Closes(c, w)
    ensures Wanting(c, |w|) <= Cap(|w|)
  {
    hide Poly, Cap, Wanting;
    ReachesOne(c, w);
    PolySmall(w);
  }

  /** At most eight values bring the state to 1 exactly if what is wanting is small enough, and then only one way. */
  lemma ShortClosing(c: bv40, k: nat)
    requires k <= 8
    ensures (exists w :: |w| == k && Closes(c, w)) <==> Wanting(c, k) <= Cap(k)
    ensures forall v, w :: |v| == |w| == k && Closes(c, v) && Closes(c, w) ==> v == w
  {
    hide Cap, Wanting;
    forall v, w | |v| == |w| == k && Closes(c, v) && Closes(c, w) ensures v == w {
      hide Poly;
      WindowSame(c, v, w);
    }
    hide Closes;
    if Wanting(c, k) <= Cap(k) {
      var w := Closing(c, k);
    }
    if w :| |w| == k && Closes(c, w) {
      ClosesSmall(c, w);
    }
  }

  // ----- Checksums -----

  const ZEROS: seq<bv8> := [0, 0, 0, 0, 0, 0, 0, 0]

  /** The eight values that bring the state to 1. */
  function Checksum(data: seq<bv8>): (r: seq<bv8>) {
    Unpack(Xor(Poly(1, data + ZEROS), 1))
  }

  lemma ChecksumVerifies(data: seq<bv8>)
    ensures Poly(1, data + Checksum(data)) == 1
    ensures |Checksum(data)| == 8 && FiveBits(Checksum(data))
  {
    hide Step, Xor, Unpack;
    var b, w := Poly(1, data), Checksum(data);
    var z := Poly(b, ZEROS);
    PolyAppend(1, data, ZEROS);
    PolyAppend(1, data, w);
    PackUnpack(Xor(z, 1));
    XorLaws(b, 0);
    XorLaws(z, 1);
    assert |w| == 8;
    PolyLinear(b, 0, ZEROS, w);
    ZeroXor(w);
  }

  lemma ZeroXor(w: seq<bv8>)
    requires |w| == 8
    ensures XorAll(ZEROS, w) == w
  {
    forall i | 0 <= i < 8 ensures XorAll(ZEROS, w)[i] == w[i] {
      assert ZEROS[i] == 0;
      assert 0 ^ w[i] == w[i];
    }
  }

  /** A burst of at most eight changed values is always seen: from any state, two inputs that differ only there lead
      to different states. */
  lemma BurstFrom(start: bv40, u: seq<bv8>, v: seq<bv8>, i: nat, n: nat)
    requires |u| == |v| && FiveBits(u) && FiveBits(v) && u != v
    requires n <= 8 && i + n <= |u| && u[..i] == v[..i] && u[i + n..] == v[i + n..]
    ensures Poly(start, u) != Poly(start, v)
  {
    hide Poly;
    var c, a, b, rest := Poly(start, u[..i]), u[i..i + n], v[i..i + n], u[i + n..];
    assert u == u[..i] + (a + rest) && v == v[..i] + (b + rest);
    PolyAppend(start, u[..i], a + rest);
    PolyAppend(start, v[..i], b + rest);
    PolyAppend(c, a, rest);
    PolyAppend(c, b, rest);
    if Poly(start, u) == Poly(start, v) {
      PolyInjective(Poly(c, a), Poly(c, b), rest);
      WindowSame(c, a, b);
      assert false;
    }
  }

  lemma WindowSame(c: bv40, a: seq<bv8>, b: seq<bv8>)
    requires |a| == |b| <= 8 && FiveBits(a) && FiveBits(b) && Poly(c, a) == Poly(c, b)
    ensures a == b
  {
    hide Step, Xor;
    PolyLinear(c, c, a, b);
    XorLaws(c, c);
    XorLaws(Poly(c, a), Poly(c, b));
    forall i | 0 <= i < |a| ensures a[i] ^ b[i] < 32 && (a[i] ^ b[i] == 0 <==> a[i] == b[i]) {
      Below32(a[i], b[i]);
    }
    PolySmall(XorAll(a, b));
  }

  lemma Below32(d: bv8, e: bv8)
    requires d < 32 && e < 32
    ensures d ^ e < 32 && (d ^ e == 0 <==> d == e)
  {
  }
}
