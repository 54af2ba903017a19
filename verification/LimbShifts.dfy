/** Bit lengths, shifts and division of limb arrays. */
module LimbShifts {
  import opened Arith
  import opened Limbs

  // ----- Bits of one word -----

  /** Bitwise OR. */
  function Or(a: nat, b: nat): (r: nat) {
    if a == 0 then b
    else if b == 0 then a
    else 2 * Or(a / 2, b / 2) + if a % 2 == 1 || b % 2 == 1 then 1 else 0
  }

  lemma {:induction false} OrDisjoint(a: nat, c: nat, k: nat)
    requires a < Pow2(k)
    ensures Or(a, c * Pow2(k)) == a + c * Pow2(k) == Or(c * Pow2(k), a)
  {
    var b := c * Pow2(k);
    if a != 0 && b != 0 {
      Double(c, Pow2(k - 1));
      OrDisjoint(a / 2, c, k - 1);
    }
  }

  lemma Double(c: int, p: int)
    ensures c * (2 * p) == 2 * (c * p)
  {
  }

  /** `y` doubled `k` times. */
  ghost function Doubled(k: nat, y: int): (r: int) {
    if k == 0 then y else 2 * Doubled(k - 1, y)
  }

  lemma {:induction false} DoubledIsTimes(k: nat, y: int)
    ensures Doubled(k, y) == y * Pow2(k)
  {
    if k > 0 {
      DoubledIsTimes(k - 1, y);
      Double(y, Pow2(k - 1));
    }
  }

  lemma {:induction false} DoubledAgain(k: nat, y: int)
    ensures Doubled(k, 2 * y) == 2 * Doubled(k, y)
    ensures Doubled(k, y + 1) == Doubled(k, y) + Pow2(k)
  {
    if k > 0 { DoubledAgain(k - 1, y); }
  }

  /** A 32-bit word moved left; the high bits are lost. */
  function ShiftWordLeft(a: Limb, n: nat): (r: Limb) {
    (a * Pow2(n)) % BASE
  }

  function ShiftWordRight(a: Limb, n: nat): (r: Limb) {
    DivLe(a, Pow2(n));
    a / Pow2(n)
  }

  predicate TestBit(a: Limb, n: nat) {
    (a / Pow2(n)) % 2 == 1
  }

  /** A word shifted left by `n` is a high part, which a right shift finds, and a low part. */
  lemma WordSplit(a: Limb, n: nat) returns (c: nat)
    requires n <= 32
    ensures a * Pow2(n) == ShiftWordLeft(a, n) + BASE * ShiftWordRight(a, 32 - n)
    ensures ShiftWordRight(a, 32 - n) < Pow2(n)
    ensures ShiftWordLeft(a, n) == c * Pow2(n)
  {
    Pow2Values();
    Pow2Add(n, 32 - n);
    c := SplitArith(a, Pow2(n), Pow2(32 - n), BASE);
  }

  lemma SplitArith(a: nat, p: nat, r: nat, b: nat) returns (m: nat)
    requires p * r == b && a < b && p > 0 && r > 0
    ensures a * p == (a * p) % b + b * (a / r)
    ensures 0 <= a / r < p
    ensures (a * p) % b == m * p
  {
    var q := a / r;
    m := a % r;
    DivLe(a, r);
    assert a == r * q + m;
    ScaleBoth(a, p, r, q, m);
    MulLe(m + 1, r, p);
    assert (m + 1) * p == m * p + p;
    DivModUnique(a * p, q, m * p, b);
    if q >= p {
      MulLe(p, q, r);
      assert false;
    }
  }

  lemma ScaleBoth(a: int, p: int, r: int, q: int, m: int)
    requires a == r * q + m
    ensures a * p == q * (p * r) + m * p
  {
    MulAssoc(q, p, r);
  }

  // ----- Powers and limbs -----

  lemma {:induction false} UpPow(k: nat, n: nat)
    ensures Up(k, Pow2(n)) == Pow2(32 * k + n)
  {
    if k > 0 {
      UpPow(k - 1, n);
      Pow2Values();
      Pow2Add(32, 32 * (k - 1) + n);
    }
  }

  lemma ModulusPow(k: nat)
    ensures Modulus(k) == Pow2(32 * k)
  {
    UpPow(k, 0);
  }

  // ----- Bit length -----

  /** `n` is the length of `v` in bits. */
  ghost predicate BitLength(v: nat, n: nat) {
    v < Pow2(n) && (n > 0 ==> Pow2(n - 1) <= v)
  }

  method Bits(pn: array<Limb>) returns (n: nat)
    ensures BitLength(Value(pn[..]), n)
    ensures n <= 32 * pn.Length
  {
    var pos := pn.Length;
    while pos > 0
      invariant 0 <= pos <= pn.Length
      invariant forall k :: pos <= k < pn.Length ==> pn[k] == 0
    {
      pos := pos - 1;
      if pn[pos] != 0 {
        var b := WordBits(pn[pos]);
        LengthOfTop(pn[..], pos, b);
        return 32 * pos + b;
      }
    }
    ValueZero(pn[..]);
    return 0;
  }

  method WordBits(a: Limb) returns (b: nat)
    requires a != 0
    ensures 1 <= b <= 32 && BitLength(a, b)
  {
    var bits := 31;
    Pow2Values();
    while bits > 0
      invariant 0 <= bits <= 31 && a < Pow2(bits + 1)
    {
      TopBit(a, bits);
      if TestBit(a, bits) {
        return bits + 1;
      }
      bits := bits - 1;
    }
    return 1;
  }

  lemma TopBit(a: nat, n: nat)
    requires a < Pow2(n + 1)
    ensures (a / Pow2(n)) % 2 == 1 <==> a >= Pow2(n)
  {
    var p := Pow2(n);
    if a >= p {
      DivModUnique(a, 1, a - p, p);
    } else {
      DivModUnique(a, 0, a, p);
    }
  }

  lemma LengthOfTop(s: seq<Limb>, pos: nat, b: nat)
    requires pos < |s| && b > 0 && BitLength(s[pos], b)
    requires forall k :: pos < k < |s| ==> s[k] == 0
    ensures BitLength(Value(s), 32 * pos + b)
  {
    hide Up, Value, Pow2;
    ValueSplit(s, pos + 1);
    ValueZero(s[pos + 1..]);
    UpZero(pos + 1);
    ValuePrefix(s, pos);
    ValueBound(s[..pos]);
    var d: int := s[pos];
    UpMono(pos, d + 1, Pow2(b));
    UpAdd(pos, d, 1);
    UpMono(pos, Pow2(b - 1), d);
    UpPow(pos, b);
    UpPow(pos, b - 1);
  }

  // ----- Left shift -----

  method Clear(pn: array<Limb>)
    modifies pn
    ensures forall k :: 0 <= k < pn.Length ==> pn[k] == 0
    ensures Value(pn[..]) == 0
  {
    for i := 0 to pn.Length
      invariant forall k :: 0 <= k < i ==> pn[k] == 0
    {
      pn[i] := 0;
    }
    ValueZero(pn[..]);
  }

  method ShiftLeft(pn: array<Limb>, shift: nat)
    modifies pn
    ensures Modulus(pn.Length) > 0
    ensures Value(pn[..]) == (Pow2(shift) * old(Value(pn[..]))) % Modulus(pn.Length)
  {
    var a := pn[..];
    Clear(pn);
    var k, s := shift / 32, shift % 32;
    ghost var q, p := 0, Pow2(s);
    UpZero(k);
    UpZero(pn.Length);
    hide Value, Up, Or, ShiftWordLeft, ShiftWordRight;
    NothingMoved(pn[..], a, k, p);
    for i := 0 to pn.Length
      invariant MovedLeft(pn[..], a, i, k, p, q)
    {
      ghost var t, lo, hi := pn[..], ShiftWordLeft(a[i], s), ShiftWordRight(a[i], 32 - s);
      ghost var c := WordSplit(a[i], s);
      LowRoom(a[i], s);
      if i + k + 1 < pn.Length && s != 0 {
        pn[i + k + 1] := Or(pn[i + k + 1], ShiftWordRight(a[i], 32 - s));
      }
      if i + k < pn.Length {
        Join(pn[i + k], a[i], s);
        pn[i + k] := Or(pn[i + k], ShiftWordLeft(a[i], s));
      }
      q := LeftStep(t, pn[..], a, i, k, p, q, lo, hi);
    }
    assert a[..pn.Length] == a;
    Pow2Add(s, 32 * k);
    Moved(k, p, Value(a), Pow2(shift));
    Dropped(pn[..], q, Pow2(shift) * Value(a));
  }

  /** The first `i` limbs of `a` stand shifted in `t`, except for `q`, which fell off the high end; `p` is 2^s for
      a shift by `s` bits within a limb. */
  ghost predicate MovedLeft(t: seq<Limb>, a: seq<Limb>, i: nat, k: nat, p: nat, q: int) {
    && i <= |a| == |t|
    && Value(t) + Up(|t|, q) == Up(k, p * Value(a[..i]))
    && (i + k < |t| ==> t[i + k] < p)
    && forall j :: i + k < j < |t| ==> t[j] == 0
  }

  lemma NothingMoved(t: seq<Limb>, a: seq<Limb>, k: nat, p: nat)
    requires |a| == |t| && p > 0 && forall j :: 0 <= j < |t| ==> t[j] == 0
    ensures MovedLeft(t, a, 0, k, p, 0)
  {
    ValueZero(t);
    UpZero(k);
    UpZero(|t|);
  }

  /** The bits left over from one word and the shifted next word share no bit. */
  lemma Join(h: nat, a: Limb, n: nat)
    requires n <= 32 && h < Pow2(n)
    ensures Or(h, ShiftWordLeft(a, n)) == h + ShiftWordLeft(a, n) < BASE
  {
    var c := WordSplit(a, n);
    OrDisjoint(h, c, n);
    LowRoom(a, n);
  }

  lemma LowRoom(a: Limb, n: nat)
    requires n <= 32
    ensures ShiftWordLeft(a, n) + Pow2(n) <= BASE
  {
    var c := WordSplit(a, n);
    Pow2Values();
    Pow2Add(32 - n, n);
    NextMultiple(c, Pow2(32 - n), Pow2(n));
  }

  lemma NextMultiple(c: int, d: int, p: int)
    requires p > 0 && c * p < d * p
    ensures c * p + p <= d * p
  {
    if c >= d {
      MulLe(d, c, p);
      assert false;
    }
    MulLe(c + 1, d, p);
    assert (c + 1) * p == c * p + p;
  }

  lemma LeftStep(t: seq<Limb>, t': seq<Limb>, a: seq<Limb>, i: nat, k: nat, p: nat, q: int, lo: nat, hi: Limb)
    returns (q': int)
    requires i < |a| && MovedLeft(t, a, i, k, p, q)
    requires lo + BASE * hi == p * a[i] && hi < p && lo + p <= BASE
    requires t' == if i + k + 1 < |t| then t[i + k + 1 := hi][i + k := t[i + k] + lo]
                   else if i + k < |t| then t[i + k := t[i + k] + lo] else t
    ensures MovedLeft(t', a, i + 1, k, p, q')
  {
    hide Up, Value;
    var m := i + k;
    PrefixScaled(a, i, k, p);
    TwoLimbs(m, lo, hi, p * a[i]);
    if m + 1 < |t| {
      q' := q;
      SetTwo(t, m, t[m] + lo, hi);
    } else if m < |t| {
      q' := q + hi;
      ValueUpdate(t, m, t[m] + lo);
      UpAdd(|t|, q, hi);
    } else {
      q' := q + Up(m - |t|, p * a[i]);
      UpAdd(|t|, q, q' - q);
      UpUp(|t|, m - |t|, p * a[i]);
    }
  }

  lemma SetTwo(t: seq<Limb>, m: nat, lo: Limb, hi: Limb)
    requires m + 1 < |t|
    ensures Value(t[m + 1 := hi][m := lo]) == Value(t) + Up(m, lo - t[m]) + Up(m + 1, hi - t[m + 1])
  {
    ValueUpdate(t, m + 1, hi);
    ValueUpdate(t[m + 1 := hi], m, lo);
  }

  lemma TwoLimbs(m: nat, lo: nat, hi: nat, x: nat)
    requires x == lo + BASE * hi
    ensures Up(m, x) == Up(m, lo) + Up(m + 1, hi)
  {
    var h: int := BASE * hi;
    UpAdd(m, lo, h);
    UpShift(m, hi);
  }

  /** One more limb of a scaled and shifted number. */
  lemma PrefixScaled(a: seq<Limb>, i: nat, k: nat, p: nat)
    requires i < |a|
    ensures Up(k, p * Value(a[..i + 1])) == Up(k, p * Value(a[..i])) + Up(i + k, p * a[i])
  {
    ValuePrefix(a, i);
    Distribute(p, Value(a[..i]), Up(i, a[i]), Value(a[..i + 1]));
    UpAdd(k, p * Value(a[..i]), p * Up(i, a[i]));
    UpTimes(i, p, a[i]);
    UpUp(k, i, p * a[i]);
  }

  lemma Moved(k: nat, p: nat, v: nat, all: nat)
    requires all == p * Pow2(32 * k)
    ensures Up(k, p * v) == all * v
  {
    UpTimes(k, p * v, 1);
    ModulusPow(k);
    MulAssoc(p, Pow2(32 * k), v);
    MulAssoc(p, v, Pow2(32 * k));
    Commute(v, Pow2(32 * k));
  }

  // ----- Right shift -----

  method ShiftRight(pn: array<Limb>, shift: nat)
    modifies pn
    ensures Value(pn[..]) == old(Value(pn[..])) / Pow2(shift)
  {
    var a := pn[..];
    Clear(pn);
    var k, s := shift / 32, shift % 32;
    ghost var rem, p := 0, Pow2(32 - s);
    UpZero(k + 1);
    for i := 0 to pn.Length
      invariant MovedRight(pn[..], a, i, k, p, rem)
    {
      ghost var t := pn[..];
      ghost var lo, hi := MoveWordRight(pn, a[i], i, k, s);
      rem := RightStep(t, pn[..], a, i, k, p, rem, lo, hi);
    }
    RightEnd(pn[..], a, k, s, rem);
  }

  /** The loop body of the right shift: the two halves of one word. */
  method MoveWordRight(pn: array<Limb>, d: Limb, i: nat, k: nat, s: nat) returns (ghost lo: nat, ghost hi: Limb)
    requires i < pn.Length && s < 32 && (i >= k ==> pn[i - k] == 0)
    requires i > k ==> pn[i - k - 1] < Pow2(32 - s)
    modifies pn
    ensures lo + BASE * hi == Pow2(32 - s) * d && hi < Pow2(32 - s) && lo + Pow2(32 - s) <= BASE
    ensures var t := old(pn[..]);
            pn[..] == if i < k then t else if i == k then t[0 := hi]
                      else t[i - k - 1 := t[i - k - 1] + lo][i - k := hi]
  {
    lo, hi := ShiftWordLeft(d, 32 - s), ShiftWordRight(d, s);
    RightWord(d, s);
    if i - k - 1 >= 0 && s != 0 {
      Join(pn[i - k - 1], d, 32 - s);
      pn[i - k - 1] := Or(pn[i - k - 1], ShiftWordLeft(d, 32 - s));
    }
    if i - k >= 0 {
      pn[i - k] := Or(pn[i - k], ShiftWordRight(d, s));
    }
  }

  lemma RightWord(a: Limb, s: nat)
    requires s < 32
    ensures var lo, hi, p := ShiftWordLeft(a, 32 - s), ShiftWordRight(a, s), Pow2(32 - s);
            lo + BASE * hi == p * a && hi < p && lo + p <= BASE && (s == 0 ==> lo == 0)
  {
    var c := WordSplit(a, 32 - s);
    LowRoom(a, 32 - s);
    if s == 0 {
      Pow2Values();
      assert ShiftWordLeft(a, 32) == 0;
    }
  }

  /** The first `i` limbs of `a` stand shifted in `t`, except for `rem`, which fell off the low end; `p` is
      2^(32 - s) for a shift by `s` bits within a limb. */
  ghost predicate MovedRight(t: seq<Limb>, a: seq<Limb>, i: nat, k: nat, p: nat, rem: int) {
    && i <= |a| == |t|
    && p * Value(a[..i]) == Up(k + 1, Value(t)) + rem
    && 0 <= rem < (if i <= k then Up(i, p) else Modulus(k + 1))
    && (i > k ==> t[i - k - 1] < p)
    && forall j :: 0 <= j < |t| && i - k <= j ==> t[j] == 0
  }

  lemma RightStep(t: seq<Limb>, t': seq<Limb>, a: seq<Limb>, i: nat, k: nat, p: nat, rem: int, lo: nat, hi: Limb)
    returns (rem': int)
    requires i < |a| && MovedRight(t, a, i, k, p, rem)
    requires lo + BASE * hi == p * a[i] && hi < p && lo + p <= BASE
    requires t' == if i < k then t else if i == k then t[0 := hi] else t[i - k - 1 := t[i - k - 1] + lo][i - k := hi]
    ensures MovedRight(t', a, i + 1, k, p, rem')
  {
    PrefixScaled(a, i, 0, p);
    assert p * Value(a[..i + 1]) == p * Value(a[..i]) + Up(i, p * a[i]);
    hide Up, Value;
    if i < k {
      rem' := rem + Up(i, p * a[i]);
      LowLimb(i, p, a[i], rem);
    } else if i == k {
      rem' := rem + Up(i, lo);
      EdgeLimb(i, p, lo, rem);
      EdgeSum(t, i, lo, hi, p * a[i]);
    } else {
      rem' := rem;
      FullSum(t, t', i - k, k, lo, hi, p * a[i]);
    }
  }

  lemma EdgeSum(t: seq<Limb>, i: nat, lo: nat, hi: Limb, x: nat)
    requires t != [] && t[0] == 0 && x == lo + BASE * hi
    ensures Up(i + 1, Value(t[0 := hi])) + Up(i, lo) == Up(i + 1, Value(t)) + Up(i, x)
  {
    TwoLimbs(i, lo, hi, x);
    ValueUpdate(t, 0, hi);
    UpAdd(i + 1, Value(t), hi);
  }

  lemma FullSum(t: seq<Limb>, t': seq<Limb>, m: nat, k: nat, lo: nat, hi: Limb, x: nat)
    requires 1 <= m < |t| && t[m] == 0 && x == lo + BASE * hi && t[m - 1] + lo < BASE
    requires t' == t[m - 1 := t[m - 1] + lo][m := hi]
    ensures Up(k + 1, Value(t')) == Up(k + 1, Value(t)) + Up(k + m, x)
  {
    assert t' == t[m := hi][m - 1 := t[m - 1] + lo];
    SetTwo(t, m - 1, t[m - 1] + lo, hi);
    TwoLimbs(m - 1, lo, hi, x);
    UpAdd(k + 1, Value(t), Up(m - 1, x));
    UpUp(k + 1, m - 1, x);
  }

  /** A limb that falls off whole. */
  lemma LowLimb(i: nat, p: nat, d: Limb, rem: int)
    requires 0 <= rem < Up(i, p)
    ensures 0 <= rem + Up(i, p * d) < Up(i + 1, p)
  {
    MulLe(d + 1, BASE, p);
    MulLe(0, p, d);
    UpAdd(i, p, p * d);
    UpMono(i, p + p * d, BASE * p);
    UpMono(i, 0, p * d);
    UpZero(i);
    UpShift(i, p);
    assert (d as int + 1) * p == p + p * d;
  }

  /** The limb whose high part stays. */
  lemma EdgeLimb(i: nat, p: nat, lo: nat, rem: int)
    requires 0 <= rem < Up(i, p) && lo + p <= BASE
    ensures 0 <= rem + Up(i, lo) < Modulus(i + 1)
  {
    UpAdd(i, p, lo);
    UpMono(i, p + lo, BASE);
    UpMono(i, 0, lo);
    UpZero(i);
    UpShift(i, 1);
  }

  lemma RightEnd(t: seq<Limb>, a: seq<Limb>, k: nat, s: nat, rem: int)
    requires s < 32 && MovedRight(t, a, |a|, k, Pow2(32 - s), rem)
    ensures Value(t) == Value(a) / Pow2(32 * k + s)
  {
    hide Up, Value, Pow2;
    var w, p, d, v := |a|, Pow2(32 - s), Pow2(32 * k + s), Value(t);
    assert a[..w] == a;
    if w <= k {
      UpUp(w, k - w, p);
      Grows(k - w, p);
      UpMono(w, p, Up(k - w, p));
      Pow2Mono(32 - s, 32);
      Pow2Values();
      UpMono(k, p, BASE);
      UpShift(k, 1);
    }
    ModulusPow(k + 1);
    Pow2Add(32 - s, 32 * k + s);
    UpTimes(k + 1, v, 1);
    Quotient(Value(a), v, p, d, rem);
  }

  lemma {:induction false} Grows(k: nat, x: nat)
    ensures Up(k, x) >= x
  {
    if k > 0 { Grows(k - 1, x); }
  }

  lemma Quotient(a: nat, v: nat, p: nat, d: nat, rem: int)
    requires p > 0 && d > 0 && p * a == v * (p * d) + rem && 0 <= rem < p * d
    ensures v == a / d
  {
    var e := a - v * d;
    MulAssoc(p, v, d);
    MulAssoc(v, p, d);
    Commute(p, v);
    assert p * e == p * a - p * (v * d);
    if e < 0 {
      MulLe(e, -1, p);
      assert false;
    }
    if e >= d {
      MulLe(d, e, p);
      assert false;
    }
    DivModUnique(a, v, e, d);
  }

  // ----- 64-bit words -----

  method AssignUint64(pn: array<Limb>, b: nat)
    requires pn.Length >= 2 && b <= MAX_UINT64
    modifies pn
    ensures Value(pn[..]) == b
  {
    pn[0] := b % BASE;
    pn[1] := b / BASE;
    for i := 2 to pn.Length
      invariant pn[0] == b % BASE && pn[1] == b / BASE
      invariant forall k :: 2 <= k < i ==> pn[k] == 0
    {
      pn[i] := 0;
    }
    ValueZero(pn[2..]);
    LowTwo(pn[..]);
  }

  lemma LowTwo(s: seq<Limb>)
    requires |s| >= 2
    ensures Value(s) == s[0] + BASE * s[1] + BASE * (BASE * Value(s[2..]))
  {
    assert s[1..][1..] == s[2..];
  }

  /** The low 64 bits, which are the whole value when it fits. */
  method GetLow64(pn: array<Limb>) returns (r: nat)
    requires pn.Length >= 2
    ensures r == Value(pn[..]) % (MAX_UINT64 + 1)
  {
    r := Or(pn[0], pn[1] * BASE);
    Pow2Values();
    OrDisjoint(pn[0], pn[1], 32);
    hide Value, Or, Pow2;
    LowTwo(pn[..]);
    LowWords(pn[0], pn[1], Value(pn[2..]));
    assert pn[..][2..] == pn[2..];
  }

  lemma LowWords(a: Limb, b: Limb, rest: nat)
    ensures (a + BASE * b + BASE * (BASE * rest)) % (MAX_UINT64 + 1) == a + BASE * b
  {
    DivModUnique(a + BASE * b + BASE * (BASE * rest), rest, a + BASE * b, MAX_UINT64 + 1);
  }

  lemma NotZero(s: seq<Limb>, i: nat)
    requires i < |s| && s[i] != 0
    ensures Value(s) != 0
  {
    if Value(s) == 0 { ZeroValue(s); }
  }

  method EqualTo(pn: array<Limb>, b: nat) returns (r: bool)
    requires pn.Length >= 2 && b <= MAX_UINT64
    ensures r <==> Value(pn[..]) == b
  {
    LowTwo(pn[..]);
    for i := pn.Length downto 2
      invariant forall k :: i <= k < pn.Length ==> pn[k] == 0
    {
      if pn[i] != 0 {
        NotZero(pn[2..], i - 2);
        return false;
      }
    }
    ValueZero(pn[2..]);
    return pn[1] == b / BASE && pn[0] == b % BASE;
  }

  // ----- Other widths -----

  /** The same number in more limbs. */
  method Widen(b: array<Limb>, width: nat) returns (r: array<Limb>)
    requires b.Length <= width
    ensures fresh(r) && r.Length == width && Value(r[..]) == Value(b[..])
  {
    r := new Limb[width];
    for i := 0 to b.Length
      invariant r[..i] == b[..i]
    {
      r[i] := b[i];
    }
    for i := b.Length to width
      invariant r[..b.Length] == b[..]
      invariant forall k :: b.Length <= k < i ==> r[k] == 0
    {
      r[i] := 0;
    }
    ValueSplit(r[..], b.Length);
    ValueZero(r[b.Length..]);
    UpZero(b.Length);
    assert r[..][..b.Length] == b[..] && r[..][b.Length..] == r[b.Length..];
  }

  /** The low limbs, which are the whole number when it fits. */
  method Reduce(b: array<Limb>, width: nat) returns (r: array<Limb>)
    requires width <= b.Length
    ensures fresh(r) && r.Length == width && Modulus(width) > 0
    ensures Value(r[..]) == Value(b[..]) % Modulus(width)
  {
    r := new Limb[width];
    for i := 0 to width
      invariant r[..i] == b[..i]
    {
      r[i] := b[i];
    }
    assert r[..] == b[..width] == b[..][..width];
    ValueSplit(b[..], width);
    Dropped(r[..], Value(b[width..]), Value(b[..]));
  }

  // ----- Division -----

  method Copy(b: array<Limb>) returns (r: array<Limb>)
    ensures fresh(r) && r[..] == b[..]
  {
    r := new Limb[b.Length];
    for i := 0 to b.Length
      invariant r[..i] == b[..i]
    {
      r[i] := b[i];
    }
  }

  /** Shift-subtract division; `num` is the working copy, left holding the remainder.  A zero divisor raises the
      error after the quotient has been cleared. */
  method DivAssign(pn: array<Limb>, b: array<Limb>) returns (threw: bool, num: array<Limb>)
    requires pn.Length == b.Length
    modifies pn
    ensures fresh(num) && num.Length == pn.Length
    ensures threw <==> old(Value(b[..])) == 0
    ensures threw ==> Value(pn[..]) == 0
    ensures !threw ==> Value(pn[..]) == old(Value(pn[..])) / old(Value(b[..]))
    ensures !threw ==> Value(num[..]) == old(Value(pn[..])) % old(Value(b[..]))
  {
    ghost var x, y := Value(pn[..]), Value(b[..]);
    var div := Copy(b);
    num := Copy(pn);
    Clear(pn);
    var numBits := Bits(num);
    var divBits := Bits(div);
    if divBits == 0 {
      return true, num;
    }
    if divBits > numBits {
      Pow2Mono(numBits, divBits - 1);
      DivModUnique(x, 0, x, y);
      return false, num;
    }
    var shift: int := numBits - divBits;
    Aligned(x, y, numBits, divBits, pn.Length);
    ShiftLeft(div, shift);
    DoubledIsTimes((shift + 1) % 32, 0);
    DivideLoop(pn, num, div, shift, x, y);
    DivModUnique(x, Value(pn[..]), Value(num[..]), y);
    return false, num;
  }

  method DivideLoop(pn: array<Limb>, num: array<Limb>, div: array<Limb>, start: nat, ghost x: nat, ghost y: nat)
    requires pn != num && num != div && div != pn && pn.Length == num.Length == div.Length && start < 32 * pn.Length
    requires Dividing(x, y, Value(pn[..]), Value(num[..]), Value(div[..]), start)
    requires ClearBelow(pn[..], start + 1, 0)
    modifies pn, num, div
    ensures x == Value(pn[..]) * y + Value(num[..]) && Value(num[..]) < y
  {
    var shift: int := start;
    ghost var c := 0;
    while shift >= 0
      invariant -1 <= shift < 32 * pn.Length
      invariant Dividing(x, y, Value(pn[..]), Value(num[..]), Value(div[..]), shift)
      invariant ClearBelow(pn[..], shift + 1, c)
    {
      c := DivideStep(pn, num, div, shift, c, x, y);
      shift := shift - 1;
    }
  }

  ghost predicate Dividing(x: nat, y: nat, q: nat, num: nat, div: nat, shift: int)
    requires shift >= -1
  {
    && x == q * y + num && num < Doubled(shift + 1, y)
    && (shift >= 0 ==> div == Doubled(shift, y))
  }

  /** Everything below bit `n` is zero; `c` counts the multiples of 2^(n % 32) in the limb that holds bit `n`. */
  ghost predicate ClearBelow(s: seq<Limb>, n: nat, c: nat) {
    && (forall j :: 0 <= j < n / 32 && j < |s| ==> s[j] == 0)
    && (n / 32 < |s| ==> s[n / 32] == Doubled(n % 32, c))
  }

  lemma Aligned(x: nat, y: nat, n: nat, d: nat, w: nat)
    requires BitLength(x, n) && BitLength(y, d) && 0 < d <= n <= 32 * w
    ensures x < Doubled(n - d + 1, y)
    ensures Modulus(w) > 0 && (Pow2(n - d) * y) % Modulus(w) == Doubled(n - d, y)
  {
    var p := Pow2(n - d);
    DoubledIsTimes(n - d, y);
    DoubledIsTimes(n - d + 1, y);
    Pow2Add(d - 1, n - d + 1);
    MulLe(Pow2(d - 1), y, Pow2(n - d + 1));
    Pow2Add(d, n - d);
    MulLe(y + 1, Pow2(d), p);
    assert (y + 1) * p == y * p + p;
    Commute(y, p);
    Pow2Mono(n, 32 * w);
    ModulusPow(w);
    DivModUnique(p * y, 0, p * y, Modulus(w));
  }

  /** One round: subtract if it fits and set the quotient bit, then halve the divisor. */
  method DivideStep(pn: array<Limb>, num: array<Limb>, div: array<Limb>, shift: nat, ghost c: nat,
                    ghost x: nat, ghost y: nat)
    returns (ghost c': nat)
    requires pn != num && num != div && div != pn && pn.Length == num.Length == div.Length && shift < 32 * pn.Length
    requires Dividing(x, y, Value(pn[..]), Value(num[..]), Value(div[..]), shift)
    requires ClearBelow(pn[..], shift + 1, c)
    modifies pn, num, div
    ensures Dividing(x, y, Value(pn[..]), Value(num[..]), Value(div[..]), shift - 1)
    ensures ClearBelow(pn[..], shift, c')
  {
    ghost var q, n, d := Value(pn[..]), Value(num[..]), Value(div[..]);
    var cmp := CompareTo(num, div);
    ClearLower(pn[..], shift, c);
    if cmp >= 0 {
      ValueBound(num[..]);
      SubAssign(num, div);
      DivModUnique(n - d, 0, n - d, Modulus(num.Length));
      c' := SetBit(pn, shift, c);
    } else {
      c' := if shift % 32 == 31 then 0 else 2 * c;
    }
    ShiftRight(div, 1);
    DivideRound(x, y, q, n, d, shift);
  }

  lemma DivideRound(x: nat, y: nat, q: nat, n: nat, d: nat, shift: nat)
    requires Dividing(x, y, q, n, d, shift)
    ensures n < d ==> Dividing(x, y, q, n, d / Pow2(1), shift - 1)
    ensures n >= d ==> Dividing(x, y, q + Pow2(shift), n - d, d / Pow2(1), shift - 1)
  {
    assert Pow2(1) == 2 * Pow2(0);
    DoubledIsTimes(shift, y);
    assert (q + Pow2(shift)) * y == q * y + y * Pow2(shift);
  }

  lemma ClearLower(s: seq<Limb>, n: nat, c: nat)
    requires ClearBelow(s, n + 1, c)
    ensures ClearBelow(s, n, if n % 32 == 31 then 0 else 2 * c)
  {
    if n % 32 != 31 {
      assert (n + 1) / 32 == n / 32 && (n + 1) % 32 == n % 32 + 1;
      DoubledAgain(n % 32, c);
    } else {
      assert n / 32 < (n + 1) / 32;
      DoubledIsTimes(n % 32, 0);
    }
  }

  /** Sets one bit below all bits set so far. */
  method SetBit(pn: array<Limb>, n: nat, ghost c: nat) returns (ghost c': nat)
    requires n < 32 * pn.Length && ClearBelow(pn[..], n + 1, c)
    modifies pn
    ensures Value(pn[..]) == old(Value(pn[..])) + Pow2(n)
    ensures ClearBelow(pn[..], n, c')
  {
    var j, k := n / 32, n % 32;
    ghost var t := pn[..];
    c' := BitSet(t, n, c, j, k);
    pn[j] := Or(pn[j], Pow2(k));
    assert pn[..] == t[j := t[j] + Pow2(k)];
  }

  lemma BitSet(t: seq<Limb>, n: nat, c: nat, j: nat, k: nat) returns (c': nat)
    requires j == n / 32 < |t| && k == n % 32 && ClearBelow(t, n + 1, c)
    ensures Or(t[j], Pow2(k)) == t[j] + Pow2(k) < BASE
    ensures Value(t[j := t[j] + Pow2(k)]) == Value(t) + Pow2(n)
    ensures ClearBelow(t[j := t[j] + Pow2(k)], n, c')
  {
    var m := if k == 31 then 0 else c;
    ClearLower(t, n, c);
    FreeBit(t[j], m, k);
    AddBit(t, j, k);
    c' := 2 * m + 1;
  }

  lemma AddBit(t: seq<Limb>, j: nat, k: nat)
    requires j < |t| && t[j] + Pow2(k) < BASE
    ensures Value(t[j := t[j] + Pow2(k)]) == Value(t) + Pow2(32 * j + k)
  {
    ValueUpdate(t, j, t[j] + Pow2(k));
    UpPow(j, k);
  }

  lemma FreeBit(d: Limb, m: nat, k: nat)
    requires k < 32 && d == Doubled(k, 2 * m)
    ensures Or(d, Pow2(k)) == d + Pow2(k) == Doubled(k, 2 * m + 1)
    ensures d + Pow2(k) < BASE
  {
    var p, r := Pow2(k + 1), Pow2(31 - k);
    DoubledAgain(k, m);
    DoubledAgain(k, 2 * m);
    DoubledIsTimes(k + 1, m);
    OrDisjoint(Pow2(k), m, k + 1);
    Pow2Values();
    Pow2Add(31 - k, k + 1);
    NextMultiple(m, r, p);
  }
}
