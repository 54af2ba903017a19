/** Work and targets: the conversions between them and the work a Tailstorm summary block has to show. */
module Work {
  import opened Arith
  import opened Limbs
  import opened LimbShifts
  import opened Compact

  // ----- Over the integers -----

  /** The expected number of hashes to meet a target: 2^256 / (target + 1), rounded down. */
  ghost function WorkOf(t: nat): (w: nat) {
    ModulusPositive(WIDTH);
    DivLe(Modulus(WIDTH), t + 1);
    Modulus(WIDTH) / (t + 1)
  }

  /** The work of an encoded target; encodings that are negative, too large or zero count for nothing. */
  ghost function BitsWork(n: Limb): (w: nat) {
    if Decode(n) == 0 || SignOf(n) || Decode(n) >= Modulus(WIDTH) then 0 else WorkOf(Decode(n))
  }

  lemma WorkFormula(m: nat, t: nat)
    requires 1 <= t && t + 1 < m
    ensures (m - 1 - t) / (t + 1) + 1 == m / (t + 1) < m
    ensures 2 * (m / (t + 1)) <= m
  {
    var d := t + 1;
    var q, r := (m - 1 - t) / d, (m - 1 - t) % d;
    assert m - 1 - t == q * d + r;
    assert (q + 1) * d == q * d + d;
    DivModUnique(m, q + 1, r, d);
    DivLe(m - 1 - t, d);
    MulLe(2, d, q + 1);
  }

  lemma WorkAntitone(t: nat, t': nat)
    requires t <= t'
    ensures WorkOf(t') <= WorkOf(t)
  {
    var m, q := Modulus(WIDTH), WorkOf(t');
    ModulusPositive(WIDTH);
    assert m == q * (t' + 1) + m % (t' + 1);
    MulLe(t + 1, t' + 1, q);
    AtLeast(m, t + 1, q);
  }

  lemma AtLeast(m: nat, d: nat, w: nat)
    requires d > 0 && d * w <= m
    ensures m / d >= w
  {
    var q := m / d;
    assert m == d * q + m % d;
    assert (q + 1) * d == d * q + d;
    if q < w {
      MulLe(q + 1, w, d);
      assert false;
    }
  }

  // ----- On limbs -----

  method One() returns (r: array<Limb>)
    ensures fresh(r) && r.Length == WIDTH && Value(r[..]) == 1
  {
    r := new Limb[WIDTH];
    AssignUint64(r, 1);
  }

  /** Division by zero, the only error, arises for the largest target alone.  The sum wraps to zero for target 0. */
  method GetWorkForTarget(t: array<Limb>) returns (threw: bool, w: array<Limb>)
    requires t.Length == WIDTH
    ensures fresh(w) && w.Length == WIDTH
    ensures threw <==> Value(t[..]) == Modulus(WIDTH) - 1
    ensures !threw ==> Value(w[..]) == if Value(t[..]) == 0 then 0 else WorkOf(Value(t[..]))
  {
    hide Value, Modulus, WorkOf;
    ghost var m, v := Modulus(WIDTH), Value(t[..]);
    ValueBound(t[..]);
    w := Complement(t);
    var d := Copy(t);
    var one := One();
    AddAssign(d, one);
    NextModulo(v, m);
    var rem: array<Limb>;
    threw, rem := DivAssign(w, d);
    if threw {
      return;
    }
    AddAssign(w, one);
    QuotientIsWork(v);
  }

  lemma NextModulo(v: nat, m: int)
    requires v < m
    ensures (v + 1) % m == if v + 1 == m then 0 else v + 1
  {
    if v + 1 == m { DivModUnique(m, 1, 0, m); } else { DivModUnique(v + 1, 0, v + 1, m); }
  }

  lemma QuotientIsWork(v: nat)
    requires v + 1 < Modulus(WIDTH)
    ensures var m := Modulus(WIDTH); ((m - 1 - v) / (v + 1) + 1) % m == if v == 0 then 0 else WorkOf(v)
  {
    var m := Modulus(WIDTH);
    hide Modulus;
    if v == 0 {
      DivModUnique(m - 1, m - 1, 0, 1);
      DivModUnique(m, 1, 0, m);
    } else {
      WorkFormula(m, v);
      DivModUnique(WorkOf(v), 0, WorkOf(v), m);
    }
  }

  method GetWorkForDifficultyBits(nBits: Limb) returns (w: array<Limb>)
    ensures fresh(w) && w.Length == WIDTH
    ensures Value(w[..]) == BitsWork(nBits)
  {
    var target := new Limb[WIDTH];
    var negative, overflow := SetCompact(target, nBits);
    ghost var v, m := Decode(nBits), Modulus(WIDTH);
    if v < m {
      DivModUnique(v, 0, v, m);
      NotTheLargest(nBits);
    }
    var zero := EqualTo(target, 0);
    if negative || overflow || zero {
      w := new Limb[WIDTH];
      AssignUint64(w, 0);
      return;
    }
    var threw: bool;
    threw, w := GetWorkForTarget(target);
  }

  /** No encoding stands for 2^256 - 1. */
  lemma NotTheLargest(n: Limb)
    requires Decode(n) < Modulus(WIDTH)
    ensures Decode(n) < Modulus(WIDTH) - 1
  {
    var k := WIDTH - 1;
    assert Modulus(k + 1) == BASE * Up(k, 1);
    Grows(k, 1);
    if SizeOf(n) > 3 {
      assert Decode(n) == 256 * Bytes(SizeOf(n) - 4, WordOf(n));
    }
  }

  // ----- The target for a required amount of work -----

  /** The target the code picks for an amount of work. */
  ghost function TargetFor(w: nat): (t: nat)
    requires w < Modulus(WIDTH)
  {
    if w == 0 then 1
    else
      var m := Modulus(WIDTH);
      DivLe(m - 1 - w, w);
      if (m - 1 - w) / w == 0 then 1 else (m - 1 - w) / w
  }

  /** Amounts up to 2^255 are reached by that target and by every harder one that is not zero. */
  lemma TargetForWork(w: nat, t: nat)
    requires 2 * w <= Modulus(WIDTH) && w < Modulus(WIDTH) && 1 <= t <= TargetFor(w)
    ensures WorkOf(t) >= w
  {
    var m := Modulus(WIDTH);
    if w > 0 {
      var q := (m - 1 - w) / w;
      assert m - 1 - w == w * q + (m - 1 - w) % w;
      assert w * (q + 1) == w * q + w;
      MulLe(t + 1, if q == 0 then 2 else q + 1, w);
      AtLeast(m, t + 1, w);
    }
  }

  method GetTargetForRequiredWork(requiredWork: array<Limb>) returns (t: array<Limb>)
    requires requiredWork.Length == WIDTH
    ensures fresh(t) && t.Length == WIDTH
    ensures Value(requiredWork[..]) < Modulus(WIDTH)
    ensures Value(t[..]) == TargetFor(Value(requiredWork[..]))
  {
    ValueBound(requiredWork[..]);
    var zero := EqualTo(requiredWork, 0);
    if zero {
      t := One();
      return;
    }
    t := Complement(requiredWork);
    var threw, rem := DivAssign(t, requiredWork);
    zero := EqualTo(t, 0);
    if zero {
      t := One();
    }
  }

  /** The encoding of target 1. */
  const ENCODED_ONE: Limb := 0x0101_0000

  lemma RoundsPositive(c: Limb, v: nat)
    requires Rounds(c, v) && v >= 1
    ensures Decode(c) >= 1 && c != 0
  {
    assert Canonical(ENCODED_ONE) && Decode(ENCODED_ONE) == 1;
    RoundsIsFloor(c, v, ENCODED_ONE);
  }

  /** Encodes a target that shows at least the required work.  Rounding only makes the target harder, so the loop
      never has to step; for more than 2^255 no target but zero would do, and the assertion in the loop fails. */
  method GetCompactBitsForRequiredWork(requiredWork: array<Limb>) returns (ok: bool, nBits: Limb)
    requires requiredWork.Length == WIDTH
    ensures ok <==> 2 * Value(requiredWork[..]) <= Modulus(WIDTH)
    ensures ok ==> Canonical(nBits) && Decode(nBits) >= 1 && BitsWork(nBits) >= Value(requiredWork[..])
  {
    ghost var w := Value(requiredWork[..]);
    var target := GetTargetForRequiredWork(requiredWork);
    nBits := GetCompact(target, false);
    RoundsPositive(nBits, Value(target[..]));
    CanonicalWork(nBits);
    if 2 * w <= Modulus(WIDTH) { TargetForWork(w, Decode(nBits)); }
    var work := GetWorkForDifficultyBits(nBits);
    var c := CompareTo(work, requiredWork);
    while c < 0
      invariant Canonical(nBits) && Decode(nBits) >= 1
      invariant c < 0 <==> BitsWork(nBits) < w
      invariant 2 * w <= Modulus(WIDTH) ==> c >= 0
      decreases Decode(nBits)
    {
      ok, nBits := GetNextHarderCompactBits(nBits);
      if !ok {
        return false, 0;
      }
      StillPositive(nBits);
      CanonicalWork(nBits);
      work := GetWorkForDifficultyBits(nBits);
      c := CompareTo(work, requiredWork);
    }
    CanonicalWork(nBits);
    return true, nBits;
  }

  lemma StillPositive(n: Limb)
    requires Canonical(n) && n != 0
    ensures Decode(n) >= 1
  {
    SizeRange(n);
    LeastGrows(1, SizeOf(n));
  }

  lemma CanonicalWork(n: Limb)
    requires Canonical(n) && Decode(n) >= 1
    ensures BitsWork(n) == WorkOf(Decode(n)) && 2 * BitsWork(n) <= Modulus(WIDTH)
  {
    CanonicalFits(n);
    NotTheLargest(n);
    WorkFormula(Modulus(WIDTH), Decode(n));
  }
}
