/** The Tailstorm rule: K subblocks per summary block, and the work the summary block itself has to add. */
module Tailstorm {
  import opened Arith
  import opened Limbs
  import opened LimbShifts
  import opened Compact
  import opened Work
  import Asert

  /** What a summary block says about the uncles and subblocks it includes. */
  datatype SummaryData = SummaryData(nUncles: nat, nBitsUncle: Limb, nSubblocks: nat, nBitsSubblock: Limb)

  predicate Counted(d: SummaryData) {
    d.nUncles < 0x100 && d.nSubblocks < 0x100
  }

  /** The work of the included blocks. */
  ghost function Included(d: SummaryData): (w: nat) {
    MulLe(0, d.nUncles, BitsWork(d.nBitsUncle));
    MulLe(0, d.nSubblocks, BitsWork(d.nBitsSubblock));
    d.nUncles * BitsWork(d.nBitsUncle) + d.nSubblocks * BitsWork(d.nBitsSubblock)
  }

  /** The target of an ordinary subblock: `k` times as easy, but never easier than the limit. */
  function SubblockTarget(asert: nat, k: nat, limit: nat): (t: nat) {
    MulLe(0, asert, k);
    if k * asert > limit then limit else k * asert
  }

  /** The work a summary block has to show, with the wrap-around of 256-bit numbers. */
  function Required(m: nat, defaultWork: nat, k: nat, included: nat): (w: int)
    requires m > 0
  {
    var expected := (k * defaultWork) % m;
    var current := included % m;
    if current < expected && expected - current > defaultWork then expected - current else defaultWork
  }

  /** Without wrap-around, the summary block is never easier than a subblock and makes up what is missing. */
  lemma RequiredMakesUp(m: nat, defaultWork: nat, k: nat, included: nat)
    requires 0 <= k * defaultWork < m && included < m
    ensures Required(m, defaultWork, k, included) >= defaultWork
    ensures Required(m, defaultWork, k, included) + included >= k * defaultWork
  {
    DivModUnique(k * defaultWork, 0, k * defaultWork, m);
    DivModUnique(included, 0, included, m);
  }

  method DefaultTarget(asert: array<Limb>, k: Limb, powLimit: array<Limb>) returns (t: array<Limb>)
    requires asert.Length == powLimit.Length == WIDTH
    ensures fresh(t) && t.Length == WIDTH
    ensures Value(t[..]) == SubblockTarget(Value(asert[..]), k, Value(powLimit[..]))
  {
    ghost var a := Value(asert[..]);
    var kTarget := Widen(asert, Asert.WIDE);
    Asert.ProductFitsWide(asert[..], k);
    Commute(k, a);
    MulAssignUint32(kTarget, k);
    var wide := Widen(powLimit, Asert.WIDE);
    var c := CompareTo(kTarget, wide);
    if c > 0 {
      t := Copy(powLimit);
    } else {
      t := Reduce(kTarget, WIDTH);
      ValueBound(powLimit[..]);
      DivModUnique(k * a, 0, k * a, Modulus(WIDTH));
    }
  }

  method IncludedWork(n: nat, nBits: Limb) returns (w: array<Limb>)
    requires n < 0x100
    ensures fresh(w) && w.Length == WIDTH && Modulus(WIDTH) > 0
    ensures Value(w[..]) == (n * BitsWork(nBits)) % Modulus(WIDTH)
  {
    w := new Limb[WIDTH];
    AssignUint64(w, n);
    var each := GetWorkForDifficultyBits(nBits);
    MulAssign(w, each);
  }

  method RequiredSummaryWork(defaultWork: array<Limb>, k: Limb, d: SummaryData) returns (required: array<Limb>)
    requires defaultWork.Length == WIDTH && Counted(d)
    ensures fresh(required) && required.Length == WIDTH && Modulus(WIDTH) > 0
    ensures Value(required[..]) == Required(Modulus(WIDTH), Value(defaultWork[..]), k, Included(d))
  {
    hide Value, Modulus, BitsWork;
    ghost var m := Modulus(WIDTH);
    var expected := Copy(defaultWork);
    MulAssignUint32(expected, k);
    var current := IncludedWork(d.nUncles, d.nBitsUncle);
    var subblocks := IncludedWork(d.nSubblocks, d.nBitsSubblock);
    AddAssign(current, subblocks);
    ModSum(d.nUncles * BitsWork(d.nBitsUncle), d.nSubblocks * BitsWork(d.nBitsSubblock), m);
    required := Copy(defaultWork);
    var c := CompareTo(current, expected);
    if c < 0 {
      ValueBound(expected[..]);
      ghost var e, i := Value(expected[..]), Value(current[..]);
      SubAssign(expected, current);
      DivModUnique(e - i, 0, e - i, m);
      c := CompareTo(expected, required);
      if c > 0 {
        required := expected;
      }
    }
  }

  lemma ModSum(a: int, b: int, m: int)
    requires m > 0
    ensures (a % m + b % m) % m == (a + b) % m
  {
    var s := a % m + b % m;
    assert a == (a / m) * m + a % m && b == (b / m) * m + b % m && s == (s / m) * m + s % m;
    var q := a / m + b / m + s / m;
    assert q * m == (a / m) * m + (b / m) * m + (s / m) * m;
    DivModUnique(a + b, q, s % m, m);
  }

  /** The encoded target of the next block, given what ASERT says.  It fails only where the code would abort: for a
      summary block that has to show more than 2^255 work. */
  method NextBits(asert: array<Limb>, powLimit: array<Limb>, k: Limb, summary: bool, d: SummaryData)
    returns (ok: bool, nBits: Limb)
    requires asert.Length == powLimit.Length == WIDTH && k > 0 && Counted(d)
    requires 0 < Value(asert[..]) <= Value(powLimit[..]) < Modulus(WIDTH) - 1
    ensures var t := SubblockTarget(Value(asert[..]), k, Value(powLimit[..]));
            if !summary then ok && Rounds(nBits, t)
            else && (ok <==> 2 * Required(Modulus(WIDTH), WorkOf(t), k, Included(d)) <= Modulus(WIDTH))
                 && (ok ==> Canonical(nBits) && 1 <= Decode(nBits) <= Value(powLimit[..]))
                 && (ok ==> BitsWork(nBits) >= Required(Modulus(WIDTH), WorkOf(t), k, Included(d)))
  {
    var target := DefaultTarget(asert, k, powLimit);
    MulLe(1, k, Value(asert[..]));
    if !summary {
      nBits := GetCompact(target, false);
      return true, nBits;
    }
    var threw, work := GetWorkForTarget(target);
    var required := RequiredSummaryWork(work, k, d);
    var bits: Limb;
    ok, bits := GetCompactBitsForRequiredWork(required);
    if !ok {
      return false, 0;
    }
    nBits := ClampedBits(bits, powLimit);
  }

  /** Decodes, clamps and encodes again: the target only gets harder. */
  method ClampedBits(bits: Limb, powLimit: array<Limb>) returns (nBits: Limb)
    requires powLimit.Length == WIDTH && Value(powLimit[..]) > 0
    requires Canonical(bits) && Decode(bits) >= 1
    ensures Canonical(nBits) && 1 <= Decode(nBits) <= Value(powLimit[..])
    ensures BitsWork(nBits) >= BitsWork(bits)
  {
    var next := new Limb[WIDTH];
    CanonicalFits(bits);
    DivModUnique(Decode(bits), 0, Decode(bits), Modulus(WIDTH));
    var negative, overflow := SetCompact(next, bits);
    var c := CompareTo(next, powLimit);
    if c > 0 {
      next := powLimit;
    }
    nBits := GetCompact(next, false);
    RoundsPositive(nBits, Value(next[..]));
    CanonicalWork(bits);
    CanonicalWork(nBits);
    WorkAntitone(Decode(nBits), Decode(bits));
  }

  /** Together with what it includes, a summary block shows `k` times the work of a subblock, and it is never
      easier than one, as long as no 256-bit sum or product wraps around. */
  lemma SummaryWorkSuffices(nBits: Limb, t: nat, k: nat, d: SummaryData)
    requires BitsWork(nBits) >= Required(Modulus(WIDTH), WorkOf(t), k, Included(d))
    requires 0 <= k * WorkOf(t) < Modulus(WIDTH) && Included(d) < Modulus(WIDTH)
    ensures BitsWork(nBits) >= WorkOf(t)
    ensures BitsWork(nBits) + Included(d) >= k * WorkOf(t)
  {
    RequiredMakesUp(Modulus(WIDTH), WorkOf(t), k, Included(d));
  }
}
