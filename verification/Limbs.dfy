/** Fixed-width unsigned integers as arrays of 32-bit limbs, least significant first.

    Every operation is exact modulo 2^(32 * width), for any width; the 64-bit intermediates never overflow. */
module Limbs {
  import opened Arith

  const BASE: int := 0x1_0000_0000
  const MAX_UINT64: nat := 0xffff_ffff_ffff_ffff

  type Limb = x: nat | x < BASE

  // ----- Values -----

  function Value(s: seq<Limb>): (v: nat) {
    if s == [] then 0 else s[0] + BASE * Value(s[1..])
  }

  /** `x` moved up by `k` limbs. */
  ghost function Up(k: nat, x: int): (y: int) {
    if k == 0 then x else BASE * Up(k - 1, x)
  }

  /** One more than the largest value of a width. */
  ghost function Modulus(width: nat): (m: int) {
    Up(width, 1)
  }

  lemma {:induction false} UpAdd(k: nat, x: int, y: int)
    ensures Up(k, x + y) == Up(k, x) + Up(k, y)
  {
    if k > 0 { UpAdd(k - 1, x, y); }
  }

  lemma {:induction false} UpUp(j: nat, k: nat, x: int)
    ensures Up(j + k, x) == Up(j, Up(k, x))
  {
    if j > 0 {
      UpUp(j - 1, k, x);
      assert Up(j + k, x) == BASE * Up(j - 1 + k, x);
    }
  }

  lemma {:induction false} UpShift(k: nat, x: int)
    ensures Up(k, BASE * x) == Up(k + 1, x)
  {
    if k > 0 { UpShift(k - 1, x); }
  }

  lemma {:induction false} UpMono(k: nat, x: int, y: int)
    requires x <= y
    ensures Up(k, x) <= Up(k, y)
    ensures x < y ==> Up(k, x) < Up(k, y)
  {
    if k > 0 { UpMono(k - 1, x, y); }
  }

  lemma {:induction false} UpZero(k: nat)
    ensures Up(k, 0) == 0
  {
    if k > 0 { UpZero(k - 1); }
  }

  lemma {:induction false} UpTimes(k: nat, a: int, x: int)
    ensures Up(k, a * x) == a * Up(k, x)
  {
    if k > 0 {
      UpTimes(k - 1, a, x);
      Swap(a, Up(k - 1, x));
    }
  }

  lemma Swap(a: int, u: int)
    ensures BASE * (a * u) == a * (BASE * u)
  {
  }

  lemma ModulusPositive(w: nat)
    ensures Modulus(w) > 0
  {
    UpMono(w, 0, 1);
    UpZero(w);
  }

  /** A digit and a carry, put together again. */
  lemma CarryStep(k: nat, n: nat)
    ensures Up(k, n % BASE) + Up(k + 1, n / BASE) == Up(k, n)
  {
    UpShift(k, n / BASE);
    UpAdd(k, n % BASE, BASE * (n / BASE));
  }

  lemma {:induction false} ValueAppend(s: seq<Limb>, t: seq<Limb>)
    ensures Value(s + t) == Value(s) + Up(|s|, Value(t))
  {
    if s == [] {
      assert s + t == t;
    } else {
      ValueAppend(s[1..], t);
      assert (s + t)[1..] == s[1..] + t;
    }
  }

  lemma ValueSnoc(s: seq<Limb>, d: Limb)
    ensures Value(s + [d]) == Value(s) + Up(|s|, d)
  {
    ValueAppend(s, [d]);
  }

  lemma ValuePrefix(s: seq<Limb>, i: nat)
    requires i < |s|
    ensures Value(s[..i + 1]) == Value(s[..i]) + Up(i, s[i])
  {
    assert s[..i + 1] == s[..i] + [s[i]];
    ValueSnoc(s[..i], s[i]);
  }

  lemma ValueSplit(s: seq<Limb>, i: nat)
    requires i <= |s|
    ensures Value(s) == Value(s[..i]) + Up(i, Value(s[i..]))
  {
    assert s == s[..i] + s[i..];
    ValueAppend(s[..i], s[i..]);
  }

  lemma {:induction false} ValueUpdate(s: seq<Limb>, i: nat, d: Limb)
    requires i < |s|
    ensures Value(s[i := d]) == Value(s) + Up(i, d - s[i])
  {
    var t := s[i := d];
    if i == 0 {
      assert t[1..] == s[1..];
    } else {
      ValueUpdate(s[1..], i - 1, d);
      assert t[1..] == s[1..][i - 1 := d];
    }
  }

  lemma {:induction false} ValueBound(s: seq<Limb>)
    ensures Value(s) < Modulus(|s|)
  {
    if s != [] { ValueBound(s[1..]); }
  }

  lemma {:induction false} ValueZero(s: seq<Limb>)
    requires forall i :: 0 <= i < |s| ==> s[i] == 0
    ensures Value(s) == 0
  {
    if s != [] { ValueZero(s[1..]); }
  }

  lemma {:induction false} ZeroValue(s: seq<Limb>)
    requires Value(s) == 0
    ensures forall i :: 0 <= i < |s| ==> s[i] == 0
  {
    if s != [] { ZeroValue(s[1..]); }
  }

  /** What is left when whole multiples of the modulus are dropped. */
  lemma Dropped(s: seq<Limb>, q: int, x: int)
    requires Value(s) + Up(|s|, q) == x
    ensures Modulus(|s|) > 0 && Value(s) == x % Modulus(|s|)
  {
    ModulusPositive(|s|);
    ValueBound(s);
    UpTimes(|s|, q, 1);
    DivModUnique(x, q, Value(s), Modulus(|s|));
  }

  // ----- Addition -----

  method AddAssign(pn: array<Limb>, b: array<Limb>)
    requires pn.Length == b.Length
    modifies pn
    ensures Modulus(pn.Length) > 0
    ensures Value(pn[..]) == (old(Value(pn[..])) + old(Value(b[..]))) % Modulus(pn.Length)
  {
    ghost var x, y := pn[..], b[..];
    var carry := 0;
    UpZero(0);
    for i := 0 to pn.Length
      invariant 0 <= carry <= 1
      invariant pn[i..] == x[i..] && (b != pn ==> b[..] == y) && (b == pn ==> x == y)
      invariant Value(pn[..i]) + Up(i, carry) == Value(x[..i]) + Value(y[..i])
    {
      assert pn[i] == pn[i..][0] == x[i];
      assert b[i] == y[i];
      var n := carry + pn[i] + b[i];
      assert n <= MAX_UINT64;
      AddStep(pn[..i], x, y, i, carry, n);
      ghost var before := pn[..i];
      pn[i] := n % BASE;
      assert pn[..i + 1] == before + [n % BASE];
      assert pn[i + 1..] == x[i + 1..];
      carry := n / BASE;
    }
    assert pn[..pn.Length] == pn[..] && x[..pn.Length] == x && y[..pn.Length] == y;
    Dropped(pn[..], carry, Value(x) + Value(y));
  }

  lemma AddStep(done: seq<Limb>, x: seq<Limb>, y: seq<Limb>, i: nat, carry: nat, n: nat)
    requires i == |done| < |x| == |y|
    requires Value(done) + Up(i, carry) == Value(x[..i]) + Value(y[..i])
    requires n == carry + x[i] + y[i]
    ensures Value(done + [n % BASE]) + Up(i + 1, n / BASE) == Value(x[..i + 1]) + Value(y[..i + 1])
  {
    hide Up, Value;
    ValuePrefix(x, i);
    ValuePrefix(y, i);
    ValueSnoc(done, n % BASE);
    CarryStep(i, n);
    UpAdd(i, carry + x[i], y[i]);
    UpAdd(i, carry, x[i]);
  }

  // ----- Multiplication -----

  method MulAssignUint32(pn: array<Limb>, b32: Limb)
    modifies pn
    ensures Modulus(pn.Length) > 0
    ensures Value(pn[..]) == (b32 * old(Value(pn[..]))) % Modulus(pn.Length)
  {
    ghost var x := pn[..];
    var carry := 0;
    for i := 0 to pn.Length
      invariant 0 <= carry < BASE
      invariant pn[i..] == x[i..]
      invariant Value(pn[..i]) + Up(i, carry) == b32 * Value(x[..i])
    {
      assert pn[i] == pn[i..][0] == x[i];
      ProductFits(b32, pn[i], carry);
      var n := carry + b32 * pn[i];
      assert n <= MAX_UINT64;
      ScaleStep(pn[..i], x, i, b32, carry, n);
      ghost var before := pn[..i];
      pn[i] := n % BASE;
      assert pn[..i + 1] == before + [n % BASE];
      assert pn[i + 1..] == x[i + 1..];
      carry := n / BASE;
    }
    assert pn[..pn.Length] == pn[..] && x[..pn.Length] == x;
    Dropped(pn[..], carry, b32 * Value(x));
  }

  lemma ScaleStep(done: seq<Limb>, x: seq<Limb>, i: nat, b: nat, carry: nat, n: nat)
    requires i == |done| < |x|
    requires Value(done) + Up(i, carry) == b * Value(x[..i])
    requires n == carry + b * x[i]
    ensures Value(done + [n % BASE]) + Up(i + 1, n / BASE) == b * Value(x[..i + 1])
  {
    hide Up, Value;
    ValuePrefix(x, i);
    ValueSnoc(done, n % BASE);
    CarryStep(i, n);
    UpAdd(i, carry, b * x[i]);
    UpTimes(i, b, x[i]);
    Distribute(b, Value(x[..i]), Up(i, x[i]), Value(x[..i + 1]));
  }

  lemma Distribute(b: int, u: int, v: int, w: int)
    requires w == u + v
    ensures b * w == b * u + b * v
  {
  }

  lemma ProductFits(x: Limb, y: Limb, carry: nat)
    requires carry < BASE
    ensures 0 <= x * y <= 0xffff_fffe_0000_0001
    ensures 0 <= (carry + x * y) / BASE < BASE
  {
    MulBound(x, y, 0xffff_ffff);
  }

  /** Schoolbook multiplication into a cleared target.  When the operand is the target itself, it is cleared too,
      and the result is zero. */
  method MulAssign(pn: array<Limb>, b: array<Limb>)
    requires pn.Length == b.Length
    modifies pn
    ensures Modulus(pn.Length) > 0
    ensures pn != b ==> Value(pn[..]) == (old(Value(pn[..])) * Value(b[..])) % Modulus(pn.Length)
    ensures pn == b ==> Value(pn[..]) == 0
  {
    var a := pn[..];
    for i := 0 to pn.Length
      invariant forall k :: 0 <= k < i ==> pn[k] == 0
      invariant b != pn ==> b[..] == old(b[..])
    {
      pn[i] := 0;
    }
    ghost var y, w, q := b[..], pn.Length, 0;
    ValueZero(pn[..]);
    UpZero(w);
    for j := 0 to pn.Length
      invariant b[..] == y
      invariant b == pn ==> forall k :: 0 <= k < w ==> pn[k] == 0
      invariant Value(pn[..]) + Up(w, q) == Value(a[..j]) * Value(y)
    {
      ghost var start := pn[..];
      var carry := MulRow(pn, b, a[j], j);
      q := RowDone(a, y, j, Value(start), Value(pn[..]), carry, q);
    }
    assert a[..w] == a;
    Dropped(pn[..], q, Value(a) * Value(y));
    if b == pn {
      ValueZero(pn[..]);
    }
  }

  /** One row: adds `a` times `b`, moved up by `j` limbs, and drops what does not fit. */
  method MulRow(pn: array<Limb>, b: array<Limb>, a: Limb, j: nat) returns (carry: nat)
    requires j < pn.Length == b.Length
    requires b == pn ==> forall k :: 0 <= k < pn.Length ==> pn[k] == 0
    modifies pn
    ensures b[..] == old(b[..])
    ensures Value(pn[..]) + Up(pn.Length, carry) == old(Value(pn[..])) + Up(j, a * Value(b[..pn.Length - j]))
  {
    carry := 0;
    var i := 0;
    ghost var y, s := b[..], Value(pn[..]);
    UpZero(j);
    assert Value(y[..0]) == 0;
    hide Up, Value;
    while i + j < pn.Length
      invariant 0 <= i && i + j <= pn.Length && carry < BASE
      invariant b[..] == y && (b == pn ==> carry == 0 && forall k :: 0 <= k < pn.Length ==> pn[k] == 0)
      invariant Value(pn[..]) + Up(i + j, carry) == s + Up(j, a * Value(y[..i]))
    {
      ProductFits(a, b[i], carry);
      var n := carry + pn[i + j] + a * b[i];
      assert n <= MAX_UINT64;
      assert n / BASE < BASE;
      RowStep(pn[..], y, s, a, i, j, carry, n);
      pn[i + j] := n % BASE;
      carry := n / BASE;
      i := i + 1;
    }
  }

  lemma RowStep(t: seq<Limb>, y: seq<Limb>, s: nat, a: nat, i: nat, j: nat, carry: nat, n: nat)
    requires i + j < |t| == |y|
    requires Value(t) + Up(i + j, carry) == s + Up(j, a * Value(y[..i]))
    requires n == carry + t[i + j] + a * y[i]
    ensures Value(t[i + j := n % BASE]) + Up(i + j + 1, n / BASE) == s + Up(j, a * Value(y[..i + 1]))
  {
    hide Up, Value;
    var k := i + j;
    ValueUpdate(t, k, n % BASE);
    CarryStep(k, n);
    UpAdd(k, n % BASE - t[k], t[k]);
    UpAdd(k, carry + a * y[i], t[k]);
    UpAdd(k, carry, a * y[i]);
    UpUp(j, i, a * y[i]);
    ValuePrefix(y, i);
    UpTimes(i, a, y[i]);
    Distribute(a, Value(y[..i]), Up(i, y[i]), Value(y[..i + 1]));
    UpAdd(j, a * Value(y[..i]), Up(i, a * y[i]));
  }

  lemma RowDone(a: seq<Limb>, y: seq<Limb>, j: nat, before: nat, after: nat, carry: nat, q: nat) returns (q': nat)
    requires j < |a| == |y|
    requires before + Up(|y|, q) == Value(a[..j]) * Value(y)
    requires after + Up(|y|, carry) == before + Up(j, a[j] * Value(y[..|y| - j]))
    ensures after + Up(|y|, q') == Value(a[..j + 1]) * Value(y)
  {
    hide Up, Value;
    var w := |y|;
    var hi := Value(y[w - j..]);
    q' := q + carry + a[j] * hi;
    UpAdd(w, q + carry, a[j] * hi);
    UpAdd(w, q, carry);
    ValuePrefix(a, j);
    RowHigh(y, a[j], j);
    RowEnd(Value(a[..j]), Up(j, a[j]), Value(a[..j + 1]), Value(y));
  }

  /** The part of a row that stays, and the part that is dropped. */
  lemma RowHigh(y: seq<Limb>, a: nat, j: nat)
    requires j < |y|
    ensures Up(j, a * Value(y[..|y| - j])) + Up(|y|, a * Value(y[|y| - j..])) == Value(y) * Up(j, a)
  {
    hide Up, Value;
    var w := |y|;
    var lo, hi := Value(y[..w - j]), Value(y[w - j..]);
    ValueSplit(y, w - j);
    UpUp(j, w - j, a * hi);
    UpTimes(w - j, a, hi);
    UpAdd(j, a * lo, a * Up(w - j, hi));
    Distribute(a, lo, Up(w - j, hi), Value(y));
    UpTimes(j, Value(y), a);
    Commute(a, Value(y));
  }

  lemma RowEnd(v: int, u: int, v1: int, y: int)
    requires v1 == v + u
    ensures v1 * y == v * y + y * u
  {
  }

  // ----- Complement, increment, subtraction -----

  method Complement(b: array<Limb>) returns (r: array<Limb>)
    ensures fresh(r) && r.Length == b.Length
    ensures Value(r[..]) == Modulus(b.Length) - 1 - Value(b[..])
  {
    r := new Limb[b.Length];
    for i := 0 to b.Length
      invariant b[..] == old(b[..])
      invariant forall k :: 0 <= k < i ==> r[k] == BASE - 1 - b[k]
    {
      r[i] := BASE - 1 - b[i];
    }
    ComplementValue(b[..], r[..]);
  }

  lemma {:induction false} ComplementValue(x: seq<Limb>, y: seq<Limb>)
    requires |x| == |y| && forall i :: 0 <= i < |x| ==> y[i] == BASE - 1 - x[i]
    ensures Value(y) == Modulus(|x|) - 1 - Value(x)
  {
    if x != [] { ComplementValue(x[1..], y[1..]); }
  }

  method Increment(pn: array<Limb>)
    requires pn.Length > 0
    modifies pn
    ensures Modulus(pn.Length) > 0
    ensures Value(pn[..]) == (old(Value(pn[..])) + 1) % Modulus(pn.Length)
  {
    ghost var x, w := Value(pn[..]), pn.Length;
    var i := 0;
    ghost var t := pn[..];
    Bump(t, 0);
    assert Up(0, 1) == 1;
    hide Up, Value;
    pn[0] := (pn[0] + 1) % BASE;
    assert pn[..] == t[0 := (t[0] + 1) % BASE];
    while pn[i] == 0 && i < pn.Length - 1
      invariant 0 <= i < pn.Length
      invariant Value(pn[..]) + Up(i + 1, if pn[i] == 0 then 1 else 0) == x + 1
    {
      i := i + 1;
      t := pn[..];
      Bump(t, i);
      pn[i] := (pn[i] + 1) % BASE;
      assert pn[..] == t[i := (t[i] + 1) % BASE];
    }
    if pn[i] != 0 {
      UpZero(i + 1);
      UpZero(w);
    }
    Dropped(pn[..], if pn[i] == 0 then 1 else 0, x + 1);
  }

  /** One limb counts up; when it wraps to zero, it leaves a carry. */
  lemma Bump(s: seq<Limb>, i: nat)
    requires i < |s|
    ensures var d := (s[i] + 1) % BASE;
            Value(s[i := d]) + Up(i + 1, if d == 0 then 1 else 0) == Value(s) + Up(i, 1)
  {
    hide Up, Value;
    var n := s[i] as int + 1;
    ValueUpdate(s, i, n % BASE);
    CarryStep(i, n);
    UpAdd(i, n % BASE - s[i], s[i]);
    UpAdd(i, s[i], 1);
    assert n / BASE == if n % BASE == 0 then 1 else 0;
  }

  method Negate(b: array<Limb>) returns (r: array<Limb>)
    requires b.Length > 0
    ensures fresh(r) && r.Length == b.Length && Modulus(b.Length) > 0
    ensures Value(r[..]) == (Modulus(b.Length) - Value(b[..])) % Modulus(b.Length)
  {
    r := Complement(b);
    Increment(r);
  }

  method SubAssign(pn: array<Limb>, b: array<Limb>)
    requires pn.Length == b.Length > 0
    modifies pn
    ensures Modulus(pn.Length) > 0
    ensures Value(pn[..]) == (old(Value(pn[..])) - old(Value(b[..]))) % Modulus(pn.Length)
  {
    ghost var x, y, m := Value(pn[..]), Value(b[..]), Modulus(pn.Length);
    ValueBound(b[..]);
    var n := Negate(b);
    AddAssign(pn, n);
    SubMod(x, y, m);
  }

  lemma SubMod(x: int, y: int, m: int)
    requires m > 0 && 0 <= y < m
    ensures (x + (m - y) % m) % m == (x - y) % m
  {
    if y == 0 {
      DivModUnique(m, 1, 0, m);
    } else {
      DivModUnique(m - y, 0, m - y, m);
      var q, r := (x - y) / m, (x - y) % m;
      DivModUnique(x + (m - y), q + 1, r, m);
    }
  }

  // ----- Comparison -----

  method CompareTo(a: array<Limb>, b: array<Limb>) returns (r: int)
    requires a.Length == b.Length
    ensures r == if Value(a[..]) < Value(b[..]) then -1 else if Value(a[..]) > Value(b[..]) then 1 else 0
  {
    var i := a.Length;
    while i > 0
      invariant 0 <= i <= a.Length
      invariant a[i..] == b[i..]
    {
      i := i - 1;
      if a[i] < b[i] {
        HigherLimbWins(a[..], b[..], i);
        return -1;
      }
      if a[i] > b[i] {
        HigherLimbWins(b[..], a[..], i);
        return 1;
      }
      assert a[i..] == [a[i]] + a[i + 1..] && b[i..] == [b[i]] + b[i + 1..];
    }
    assert a[0..] == a[..] && b[0..] == b[..];
    return 0;
  }

  lemma HigherLimbWins(x: seq<Limb>, y: seq<Limb>, i: nat)
    requires |x| == |y| && i < |x| && x[i] < y[i] && x[i + 1..] == y[i + 1..]
    ensures Value(x) < Value(y)
  {
    hide Up, Value;
    ValueSplit(x, i + 1);
    ValueSplit(y, i + 1);
    ValuePrefix(x, i);
    ValuePrefix(y, i);
    ValueBound(x[..i]);
    UpAdd(i, x[i], 1);
    UpMono(i, x[i] + 1, y[i]);
  }
}
