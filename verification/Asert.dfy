/** The ASERT difficulty adjustment: a fixed-point exponential computed on 320-bit limbs. */
module Asert {
  import opened Arith
  import opened Limbs
  import opened LimbShifts

  /** Integer division that rounds toward zero. */
  function TruncDiv(a: int, b: int): (q: int)
    requires b > 0
  {
    if a >= 0 then a / b else -((-a) / b)
  }

  lemma TruncDivMono(a: int, a': int, b: int)
    requires b > 0 && a <= a'
    ensures TruncDiv(a, b) <= TruncDiv(a', b)
  {
    if a >= 0 {
      DivMono(a, a', b);
    } else if a' < 0 {
      DivMono(-a', -a, b);
    } else {
      DivMono(0, -a, b);
      DivMono(0, a', b);
      DivModUnique(0, 0, 0, b);
    }
  }

  lemma DivMono(a: int, a': int, b: int)
    requires b > 0 && a <= a'
    ensures a / b <= a' / b
  {
    var q, q' := a / b, a' / b;
    assert a == b * q + a % b && a' == b * q' + a' % b;
    assert (q' + 1) * b == b * q' + b;
    if q > q' {
      MulLe(q' + 1, q, b);
      assert false;
    }
  }

  // ----- The fixed-point power of two -----

  const MAX_FRAC: nat := 0xffff

  /** The rounded cubic approximation of 65536 * 2^(frac / 65536). */
  function Factor(frac: nat): (r: nat)
    requires frac <= MAX_FRAC
  {
    0x1_0000 + Cubic(frac) / 0x1_0000_0000_0000
  }

  function Cubic(frac: nat): (r: nat) {
    195766423245049 * frac + 971821376 * frac * frac + 5127 * frac * frac * frac + 0x8000_0000_0000
  }

  /** The 64-bit sum never overflows and the factor stays below 2^17, although the bound is tight. */
  lemma FactorRange(frac: nat)
    requires frac <= MAX_FRAC
    ensures Cubic(frac) <= MAX_UINT64
    ensures 0x1_0000 <= Factor(frac) < 0x2_0000
  {
    CubicMono(frac, MAX_FRAC);
  }

  lemma CubicMono(f: nat, g: nat)
    requires f <= g
    ensures Cubic(f) <= Cubic(g)
  {
    MulLe(f, g, f);
    MulLe(f, g, g);
    MulLe(f * f, g * g, f);
    MulLe(f, g, g * g);
    assert f * f <= g * g;
    assert f * f * f <= g * g * f == f * (g * g) <= g * (g * g);
    Terms(f);
    Terms(g);
  }

  lemma Terms(f: nat)
    ensures 971821376 * f * f == 971821376 * (f * f) && 5127 * f * f * f == 5127 * (f * f * f)
  {
  }

  lemma FactorMono(f: nat, g: nat)
    requires f <= g <= MAX_FRAC
    ensures Factor(f) <= Factor(g)
  {
    CubicMono(f, g);
  }

  // ----- The target over the integers -----

  /** `x` times 2^n, rounded down, for `n` of either sign. */
  function Scaled(x: nat, n: int): (r: nat) {
    if n >= 0 then MulLe(0, x, Pow2(n)); x * Pow2(n) else DivLe(x, Pow2(-n)); x / Pow2(-n)
  }

  /** The exponent, in units of 1/65536 of a half life. */
  function Exponent(spacing: int, timeDiff: int, heightDiff: int, halfLife: int): (e: int)
    requires halfLife > 0
  {
    TruncDiv((timeDiff - spacing * (heightDiff + 1)) * 0x1_0000, halfLife)
  }

  /** The unclamped target: refTarget * factor * 2^shifts / 65536, rounded down. */
  function IdealTarget(ref: nat, e: int): (t: nat) {
    FactorRange(e % 0x1_0000);
    MulLe(0, ref, Factor(e % 0x1_0000));
    Scaled(ref * Factor(e % 0x1_0000), e / 0x1_0000 - 16)
  }

  function Clamp(t: nat, limit: nat): (r: nat) {
    if t == 0 then 1 else if t > limit then limit else t
  }

  const INT64_LIMIT: int := 0x8000_0000_0000_0000
  const WIDE: nat := 10

  /** The arithmetic stays in 64-bit signed numbers. */
  predicate NumeratorFits(spacing: int, timeDiff: int, heightDiff: int) {
    -INT64_LIMIT <= (timeDiff - spacing * (heightDiff + 1)) * 0x1_0000 < INT64_LIMIT
  }

  /** The shift counts survive the conversion to 32 bits. */
  predicate CountFits(e: int) {
    -BASE < e / 0x1_0000 - 16 < BASE
  }

  /** What is left of a shift count in 32 bits, and the unclamped target computed with it. */
  function Cut(n: int): (c: int)
    ensures -BASE < n < BASE ==> c == n
  {
    if n <= 0 then -((-n) % BASE) else n % BASE
  }

  function CodeTarget(ref: nat, e: int): (t: nat) {
    FactorRange(e % 0x1_0000);
    MulLe(0, ref, Factor(e % 0x1_0000));
    Scaled(ref * Factor(e % 0x1_0000), Cut(e / 0x1_0000 - 16))
  }

  method CalculateASERT(refTarget: array<Limb>, spacing: int, timeDiff: int, heightDiff: int,
                        powLimit: array<Limb>, halfLife: int)
    returns (r: array<Limb>)
    requires refTarget.Length == powLimit.Length == 8
    requires 0 < Value(refTarget[..]) <= Value(powLimit[..])
    requires heightDiff >= 0 && halfLife > 0 && NumeratorFits(spacing, timeDiff, heightDiff)
    requires -0x8000_0000_0000 < timeDiff - spacing * heightDiff < 0x8000_0000_0000
    ensures fresh(r) && r.Length == 8
    ensures var (ref, limit) := (Value(refTarget[..]), Value(powLimit[..]));
            var e := Exponent(spacing, timeDiff, heightDiff, halfLife);
            && Value(r[..]) == Clamp(CodeTarget(ref, e), limit)
            && (CountFits(e) ==> Value(r[..]) == Clamp(IdealTarget(ref, e), limit))
  {
    var exponent := Exponent(spacing, timeDiff, heightDiff, halfLife);
    var shifts, frac := exponent / 0x1_0000, exponent % 0x1_0000;
    FactorRange(frac);
    var nextTarget := Widen(refTarget, WIDE);
    MulAssignUint32(nextTarget, Factor(frac));
    ghost var x := Value(refTarget[..]) * Factor(frac);
    ProductFitsWide(refTarget[..], Factor(frac));
    var overflow, shifted := ShiftBy(nextTarget, shifts - 16);
    ValueBound(powLimit[..]);
    WideIsWider();
    if overflow {
      r := Copy(powLimit);
    } else {
      r := ClampTo(shifted, powLimit);
    }
  }

  /** Multiplies by 2^n and reports when high bits would be lost, found out by shifting back. */
  method ShiftBy(t: array<Limb>, n: int) returns (overflow: bool, r: array<Limb>)
    requires t.Length == WIDE
    modifies t
    ensures r.Length == WIDE
    ensures overflow <==> Scaled(old(Value(t[..])), Cut(n)) >= Modulus(WIDE)
    ensures !overflow ==> Value(r[..]) == Scaled(old(Value(t[..])), Cut(n))
  {
    if n <= 0 {
      var count := (-n) % BASE;
      ScaledDown(Value(t[..]), -count);
      ShiftRight(t, count);
      ValueBound(t[..]);
      return false, t;
    }
    var count := n % BASE;
    overflow, r := ShiftUp(t, count);
  }

  lemma ScaledDown(x: nat, n: int)
    requires n <= 0
    ensures Scaled(x, n) == x / Pow2(-n)
  {
  }

  method ShiftUp(t: array<Limb>, n: nat) returns (overflow: bool, r: array<Limb>)
    requires t.Length == WIDE
    ensures r.Length == WIDE
    ensures overflow <==> Scaled(Value(t[..]), n) >= Modulus(WIDE)
    ensures !overflow ==> Value(r[..]) == Scaled(Value(t[..]), n)
  {
    r := Copy(t);
    ShiftLeft(r, n);
    var back := Copy(r);
    ShiftRight(back, n);
    var c := CompareTo(back, t);
    LostBits(Value(t[..]), Pow2(n), Modulus(WIDE), Value(r[..]));
    overflow := c != 0;
  }

  /** What is left of the size of the shift count in 32 bits. */
  function Rest(e: int): (c: nat) {
    var n := e / 0x1_0000 - 16;
    (if n <= 0 then -n else n) % BASE
  }

  /** The code meets the ideal target exactly if the count fits, or if the rest of the count still carries the product
      to the bound that the ideal target is far beyond. */
  lemma CountExact(ref: nat, e: int, limit: nat)
    requires 0 < ref <= limit < Modulus(8)
    ensures var x, c := ref * Factor(e % 0x1_0000), Rest(e);
            Clamp(CodeTarget(ref, e), limit) == Clamp(IdealTarget(ref, e), limit) <==>
            || CountFits(e)
            || (if e > 0 then x * Pow2(c) >= limit else x < Pow2(c + 1) || limit == 1)
  {
    var n, f := e / 0x1_0000 - 16, Factor(e % 0x1_0000);
    FactorRange(e % 0x1_0000);
    MulLe(1, ref, f);
    if n >= BASE {
      FarAbove(ref * f, n, limit);
      Positive(ref * f, Cut(n));
    } else if n <= -BASE {
      FarBelow(ref, f, n);
      AtMostOne(ref * f, Rest(e));
    }
  }

  lemma AtMostOne(x: nat, c: int)
    requires c >= 0
    ensures Scaled(x, -c) <= 1 <==> x < Pow2(c + 1)
  {
    ScaledDown(x, -c);
    var q := x / Pow2(c);
    assert x == Pow2(c) * q + x % Pow2(c);
    if q >= 2 { MulLe(2, q, Pow2(c)); } else { MulLe(q, 1, Pow2(c)); }
  }

  lemma Positive(x: nat, n: nat)
    requires x >= 1
    ensures Scaled(x, n) >= 1
  {
    MulLe(1, x, Pow2(n));
  }

  lemma FarAbove(x: nat, n: int, limit: nat)
    requires x >= 1 && n >= 256 && limit < Modulus(8)
    ensures Scaled(x, n) > limit
  {
    ModulusPow(8);
    Pow2Mono(256, n);
    MulLe(1, x, Pow2(n));
  }

  lemma FarBelow(ref: nat, f: nat, n: int)
    requires ref < Modulus(8) && f < 0x2_0000 && n <= -273
    ensures 0 <= ref * f && Scaled(ref * f, n) == 0
  {
    ModulusPow(8);
    Pow2Add(256, 17);
    Pow2Values();
    Pow2Mono(273, -n);
    MulLe(ref, Pow2(256), f);
    MulLe(0, ref, f);
    MulLe(f, Pow2(17), Pow2(256));
    DivModUnique(ref * f, 0, ref * f, Pow2(-n));
  }

  /** The count fits as long as the chain is less than about 2^32 half lives off schedule. */
  lemma NearSchedule(spacing: int, timeDiff: int, heightDiff: int, halfLife: int)
    requires halfLife > 0
    requires -halfLife * (BASE - 17) <= timeDiff - spacing * (heightDiff + 1) <= halfLife * (BASE - 17)
    ensures CountFits(Exponent(spacing, timeDiff, heightDiff, halfLife))
  {
    var d := timeDiff - spacing * (heightDiff + 1);
    var k := BASE - 17;
    var a := if d < 0 then -d else d;
    assert 0 <= a <= halfLife * k;
    DivMono(a * 0x1_0000, 0x1_0000 * k * halfLife, halfLife);
    DivModUnique(0x1_0000 * k * halfLife, 0x1_0000 * k, 0, halfLife);
    DivMono(0, a * 0x1_0000, halfLife);
    DivModUnique(0, 0, 0, halfLife);
  }

  /** Beside the assertion on the time difference, the multiplication stays in 64 bits exactly if the block that is
      still to come does not take the difference out of the asserted range. */
  lemma NumeratorExact(spacing: nat, timeDiff: int, heightDiff: nat)
    requires -0x8000_0000_0000 < timeDiff - spacing * heightDiff < 0x8000_0000_0000
    ensures NumeratorFits(spacing, timeDiff, heightDiff) <==> timeDiff - spacing * heightDiff - spacing >= -0x8000_0000_0000
  {
    assert spacing * (heightDiff + 1) == spacing * heightDiff + spacing;
  }

  /** With a half life of one second and 2^32 + 16 seconds gone, the cut count is 0. */
  lemma ShortHalfLife()
    ensures NumeratorFits(0, 0x1_0000_0010, 0)
    ensures var e := Exponent(0, 0x1_0000_0010, 0, 1);
            !CountFits(e) && Clamp(CodeTarget(1, e), 0x2_0000) == 0x1_0000 && Clamp(IdealTarget(1, e), 0x2_0000) == 0x2_0000
  {
    var e := Exponent(0, 0x1_0000_0010, 0, 1);
    assert e == 0x1_0000_0010 * 0x1_0000;
    assert e / 0x1_0000 - 16 == BASE && e % 0x1_0000 == 0 && Cut(BASE) == 0;
    assert Factor(0) == 0x1_0000 && Pow2(0) == 1;
    Pow2Values();
    Pow2Mono(32, BASE);
    MulLe(1, Factor(0), Pow2(BASE));
  }

  /** Shifting up and back is the identity exactly when no bit is lost. */
  lemma LostBits(x: nat, p: nat, m: nat, y: nat)
    requires p > 0 && m > 0 && y == (p * x) % m
    ensures y / p == x <==> x * p < m
    ensures x * p < m ==> y == x * p
  {
    var z := p * x;
    Commute(p, x);
    MulLe(0, x, p);
    if z < m {
      DivModUnique(z, 0, z, m);
      DivModUnique(z, x, 0, p);
    } else {
      assert y == p * (y / p) + y % p;
    }
  }

  method ClampTo(t: array<Limb>, powLimit: array<Limb>) returns (r: array<Limb>)
    requires t.Length == WIDE && powLimit.Length == 8 && Value(powLimit[..]) > 0
    ensures fresh(r) && r.Length == 8
    ensures Value(r[..]) == Clamp(Value(t[..]), Value(powLimit[..]))
  {
    var zero := EqualTo(t, 0);
    if zero {
      r := new Limb[8];
      AssignUint64(r, 1);
      return;
    }
    var wide := Widen(powLimit, WIDE);
    var c := CompareTo(t, wide);
    if c > 0 {
      r := Copy(powLimit);
      return;
    }
    r := Reduce(t, 8);
    ValueBound(powLimit[..]);
    DivModUnique(Value(t[..]), 0, Value(t[..]), Modulus(8));
  }

  lemma WideIsWider()
    ensures Modulus(8) <= Modulus(WIDE)
  {
    var k: nat := 2;
    UpUp(8, k, 1);
    Grows(k, 1);
    UpMono(8, 1, Up(k, 1));
  }

  /** A 256-bit number times a 32-bit number fits in 320 bits. */
  lemma ProductFitsWide(s: seq<Limb>, f: Limb)
    requires |s| == 8
    ensures Modulus(WIDE) > 0 && (f * Value(s)) % Modulus(WIDE) == Value(s) * f
  {
    var v, w: nat := Value(s), 8;
    ValueBound(s);
    MulLe(v, Modulus(w), f);
    MulLe(0, v, f);
    MulLe(f, BASE, Modulus(w));
    assert Up(w + 1, 1) == BASE * Up(w, 1) && Up(w + 2, 1) == BASE * Up(w + 1, 1);
    ModulusPositive(w);
    DivModUnique(f * v, 0, f * v, Modulus(WIDE));
  }

  // ----- Monotonicity -----

  lemma ScaledMono(x: nat, y: nat, n: int)
    requires x <= y
    ensures Scaled(x, n) <= Scaled(y, n)
  {
    if n >= 0 {
      MulLe(x, y, Pow2(n));
    } else {
      DivMono(x, y, Pow2(-n));
    }
  }

  lemma ScaledDouble(x: nat, n: int)
    ensures Scaled(2 * x, n) == Scaled(x, n + 1)
  {
    if n >= 0 {
      assert (2 * x) * Pow2(n) == x * (2 * Pow2(n));
    } else {
      var p := Pow2(-n - 1);
      assert Pow2(-n) == 2 * p;
      ScaledDown(x, n + 1);
      Halved(x, p);
    }
  }

  lemma Halved(x: nat, p: nat)
    requires p > 0
    ensures (2 * x) / (2 * p) == x / p
  {
    var q, r := x / p, x % p;
    assert x == q * p + r;
    Double(q, p);
    DivModUnique(2 * x, q, 2 * r, 2 * p);
  }

  /** A later exponent never gives a smaller target, also where the fractional part wraps. */
  lemma {:induction false} IdealTargetMono(ref: nat, e: int, e': int)
    requires e <= e'
    ensures IdealTarget(ref, e) <= IdealTarget(ref, e')
    decreases e' / 0x1_0000 - e / 0x1_0000
  {
    var s, f, f' := e / 0x1_0000, e % 0x1_0000, e' % 0x1_0000;
    FactorRange(f);
    FactorRange(f');
    if s == e' / 0x1_0000 {
      FactorMono(f, f');
      MulLe(Factor(f), Factor(f'), ref);
      ScaledMono(ref * Factor(f), ref * Factor(f'), s - 16);
    } else {
      var w := (s + 1) * 0x1_0000;
      assert w / 0x1_0000 == s + 1 && w % 0x1_0000 == 0;
      assert Factor(0) == 0x1_0000;
      MulLe(Factor(f), 0x2_0000, ref);
      ScaledMono(ref * Factor(f), 2 * (ref * 0x1_0000), s - 16);
      ScaledDouble(ref * 0x1_0000, s - 16);
      IdealTargetMono(ref, w, e');
    }
  }

  lemma ClampMono(t: nat, t': nat, limit: nat)
    requires t <= t' && limit > 0
    ensures Clamp(t, limit) <= Clamp(t', limit)
  {
  }

  /** More elapsed time never makes the target harder; more blocks never make it easier. */
  lemma TargetMono(ref: nat, limit: nat, spacing: nat, time: int, time': int, height: nat, height': nat, halfLife: int)
    requires limit > 0 && halfLife > 0 && time <= time' && height >= height'
    ensures Clamp(IdealTarget(ref, Exponent(spacing, time, height, halfLife)), limit)
         <= Clamp(IdealTarget(ref, Exponent(spacing, time', height', halfLife)), limit)
  {
    MulLe(height' + 1, height + 1, spacing);
    var a := (time - spacing * (height + 1)) * 0x1_0000;
    var a' := (time' - spacing * (height' + 1)) * 0x1_0000;
    TruncDivMono(a, a', halfLife);
    hide Clamp, IdealTarget;
    var e, e' := TruncDiv(a, halfLife), TruncDiv(a', halfLife);
    IdealTargetMono(ref, e, e');
    ClampMono(IdealTarget(ref, e), IdealTarget(ref, e'), limit);
  }
}
