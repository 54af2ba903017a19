/** The compact "nBits" form of a 256-bit target: a size byte, a sign bit and a 23-bit mantissa in 32 bits. */
module Compact {
  import opened Arith
  import opened Limbs
  import opened LimbShifts

  const WIDTH: nat := 8

  function SizeOf(n: Limb): (r: nat) {
    n / 0x100_0000
  }

  function WordOf(n: Limb): (r: nat) {
    n % 0x80_0000
  }

  predicate SignOf(n: Limb) {
    (n / 0x80_0000) % 2 == 1
  }

  // ----- Whole bytes -----

  /** `x` moved up by `k` bytes. */
  ghost function Bytes(k: nat, x: int): (y: int) {
    if k == 0 then x else 256 * Bytes(k - 1, x)
  }

  lemma {:induction false} BytesAdd(k: nat, x: int, y: int)
    ensures Bytes(k, x + y) == Bytes(k, x) + Bytes(k, y)
  {
    if k > 0 { BytesAdd(k - 1, x, y); }
  }

  lemma {:induction false} BytesMono(k: nat, x: int, y: int)
    requires x < y
    ensures Bytes(k, x) < Bytes(k, y)
  {
    if k > 0 { BytesMono(k - 1, x, y); }
  }

  lemma {:induction false} BytesZero(k: nat)
    ensures Bytes(k, 0) == 0
  {
    if k > 0 { BytesZero(k - 1); }
  }

  lemma {:induction false} BytesShift(k: nat, x: int)
    ensures Bytes(k, 256 * x) == Bytes(k + 1, x)
  {
    if k > 0 { BytesShift(k - 1, x); }
  }

  lemma {:induction false} BytesUp(j: nat, x: int)
    ensures Bytes(4 * j, x) == Up(j, x)
  {
    if j > 0 {
      BytesUp(j - 1, x);
      var k := 4 * (j - 1);
      assert Bytes(k + 4, x) == 256 * Bytes(k + 3, x);
      assert Bytes(k + 3, x) == 256 * Bytes(k + 2, x);
      assert Bytes(k + 2, x) == 256 * Bytes(k + 1, x);
    }
  }

  lemma {:induction false} BytesGrow(j: nat, k: nat, x: nat)
    requires j <= k
    ensures Bytes(j, x) <= Bytes(k, x)
  {
    if j < k {
      BytesGrow(j, k - 1, x);
      BytesNat(k - 1, x);
    }
  }

  lemma {:induction false} BytesNat(k: nat, x: nat)
    ensures Bytes(k, x) >= 0
  {
    if k > 0 { BytesNat(k - 1, x); }
  }

  // ----- What an encoding means -----

  /** The whole number an encoding stands for, without any width limit and without its sign. */
  ghost function Decode(n: Limb): (v: nat) {
    var size, word := SizeOf(n), WordOf(n);
    if size == 0 then 0
    else if size == 1 then word / 0x1_0000
    else if size == 2 then word / 0x100
    else BytesNat(size - 3, word); Bytes(size - 3, word)
  }

  /** The encodings `GetCompact` produces for targets: no sign, a full mantissa, no bits that decoding ignores,
      and a value of fewer than 256 bits. */
  ghost predicate Canonical(n: Limb) {
    || n == 0
    || (&& !SignOf(n) && SizeOf(n) >= 1 && WordOf(n) >= 0x8000
        && (SizeOf(n) == 1 ==> WordOf(n) % 0x1_0000 == 0)
        && (SizeOf(n) == 2 ==> WordOf(n) % 0x100 == 0)
        && (SizeOf(n) <= 32 || (SizeOf(n) == 33 && WordOf(n) < 0x1_0000)))
  }

  /** The smallest value of a canonical encoding of a size. */
  ghost function Least(size: nat): (v: int) {
    if size <= 1 then size else Bytes(size - 2, 128)
  }

  /** The weight of the last bit of the mantissa, in the value. */
  ghost function Unit(size: nat): (u: int) {
    if size <= 3 then 1 else Bytes(size - 3, 1)
  }

  lemma SizeRange(n: Limb)
    requires Canonical(n) && n != 0
    ensures Least(SizeOf(n)) <= Decode(n) && Decode(n) + Unit(SizeOf(n)) <= Least(SizeOf(n) + 1)
    ensures Unit(SizeOf(n)) >= 1
  {
    var size, word := SizeOf(n), WordOf(n);
    if size >= 3 {
      BytesShift(size - 3, 128);
      BytesShift(size - 2, 128);
      BytesShift(size - 3, 256 * 128);
      BytesAdd(size - 3, word, 1);
      BytesMono(size - 3, word, 0x80_0000);
      BytesMono(size - 3, 0, 1);
      BytesZero(size - 3);
      if word + 1 < 0x80_0000 { BytesMono(size - 3, word + 1, 0x80_0000); }
      if word > 0x8000 { BytesMono(size - 3, 0x8000, word); }
    } else {
      assert Bytes(0, 128) == 128 && Bytes(1, 128) == 256 * Bytes(0, 128);
    }
  }

  lemma {:induction false} LeastGrows(a: nat, b: nat)
    requires a <= b
    ensures Least(a) <= Least(b)
  {
    if a < b {
      LeastGrows(a, b - 1);
      if b == 2 {
        assert Bytes(0, 128) == 128;
      } else if b > 2 {
        BytesGrow(b - 3, b - 2, 128);
      }
    }
  }

  /** The numeric order of canonical encodings is the order of the targets; hence no two of them are equal. */
  lemma OrderPreserved(a: Limb, b: Limb)
    requires Canonical(a) && Canonical(b) && a < b
    ensures Decode(a) < Decode(b)
  {
    assert Decode(0) == 0 && Least(1) == 1;
    Parts(a);
    Parts(b);
    hide Bytes, Decode, Least, Unit, SizeOf, WordOf, SignOf;
    SizeRange(b);
    LeastGrows(1, SizeOf(b));
    if a != 0 {
      SizeRange(a);
      if SizeOf(a) < SizeOf(b) {
        LeastGrows(SizeOf(a) + 1, SizeOf(b));
      } else {
        SameSize(a, b);
      }
    }
  }

  lemma SameSize(a: Limb, b: Limb)
    requires Canonical(a) && Canonical(b) && a != 0 && SizeOf(a) == SizeOf(b) && WordOf(a) < WordOf(b)
    ensures Decode(a) < Decode(b)
  {
    if SizeOf(a) >= 3 {
      BytesMono(SizeOf(a) - 3, WordOf(a), WordOf(b));
    }
  }

  /** Every canonical encoding is of a 256-bit target. */
  lemma CanonicalFits(n: Limb)
    requires Canonical(n)
    ensures Decode(n) < Modulus(WIDTH)
  {
    var w := WIDTH;
    BytesUp(w, 1);
    ModulusPositive(w);
    if n != 0 {
      var k := 4 * w - 1;
      BytesShift(k, 1);
      if SizeOf(n) <= 32 {
        SizeRange(n);
        LeastGrows(SizeOf(n) + 1, k + 2);
        BytesMono(k, 128, 256);
      } else {
        BytesShift(k - 1, 256);
        BytesMono(k - 1, WordOf(n), 0x1_0000);
      }
    }
  }

  // ----- Rounding -----

  /** `c` is the canonical encoding whose target is `v` with the bits below its last mantissa bit dropped. */
  ghost predicate Rounds(c: Limb, v: nat) {
    Canonical(c) && Decode(c) <= v < Decode(c) + Unit(SizeOf(c))
  }

  /** A greater canonical encoding stands for a target greater by at least one unit. */
  lemma UnitApart(c: Limb, d: Limb)
    requires Canonical(c) && Canonical(d) && 0 != c < d
    ensures Decode(c) + Unit(SizeOf(c)) <= Decode(d)
  {
    var k := SizeOf(c) - 3;
    if SizeOf(c) < SizeOf(d) {
      SizeRange(c);
      SizeRange(d);
      LeastGrows(SizeOf(c) + 1, SizeOf(d));
    } else if k < 0 {
      SameSize(c, d);
    } else {
      assert SizeOf(c) == SizeOf(d) && WordOf(c) < WordOf(d);
      BytesAdd(k, WordOf(c), 1);
      if WordOf(c) + 1 < WordOf(d) { BytesMono(k, WordOf(c) + 1, WordOf(d)); }
    }
  }

  /** Rounding gives the greatest canonical target that is not above the value. */
  lemma RoundsIsFloor(c: Limb, v: nat, d: Limb)
    requires Rounds(c, v) && Canonical(d) && Decode(d) <= v
    ensures d <= c && Decode(d) <= Decode(c)
  {
    if c < d {
      OrderPreserved(c, d);
      if c != 0 { UnitApart(c, d); }
      assert false;
    }
    if d < c { OrderPreserved(d, c); }
  }

  /** Encoding what a canonical encoding stands for gives that encoding back. */
  lemma RoundTrip(n: Limb, c: Limb)
    requires Canonical(n) && Rounds(c, Decode(n))
    ensures c == n
  {
    RoundsIsFloor(c, Decode(n), n);
    if n < c { OrderPreserved(n, c); }
  }

  /** What rounding drops is less than one part in 2^15 of the value. */
  lemma RoundingLoss(c: Limb, v: nat)
    requires Rounds(c, v) && v > 0
    ensures 0x8000 * (v - Decode(c)) < v
  {
    var size, word := SizeOf(c), WordOf(c);
    if size > 3 {
      BytesScale(size - 3, 0x8000);
      if word > 0x8000 { BytesMono(size - 3, 0x8000, word); }
    }
  }

  lemma {:induction false} BytesScale(k: nat, a: int)
    ensures Bytes(k, a) == a * Bytes(k, 1)
  {
    if k > 0 {
      BytesScale(k - 1, a);
      assert 256 * (a * Bytes(k - 1, 1)) == a * (256 * Bytes(k - 1, 1));
    }
  }

  // ----- Decoding -----

  /** Loads a target.  It is exact unless the overflow flag is set, which happens exactly when the number needs
      more than 256 bits. */
  method SetCompact(pn: array<Limb>, nCompact: Limb) returns (negative: bool, overflow: bool)
    requires pn.Length == WIDTH
    modifies pn
    ensures Modulus(WIDTH) > 0
    ensures Value(pn[..]) == Decode(nCompact) % Modulus(WIDTH)
    ensures overflow <==> Decode(nCompact) >= Modulus(WIDTH)
    ensures negative <==> SignOf(nCompact) && Decode(nCompact) != 0
  {
    var nSize, nWord := SizeOf(nCompact), WordOf(nCompact);
    ghost var m, v := Modulus(WIDTH), Decode(nCompact);
    ModulusPositive(WIDTH);
    OverflowExact(nCompact);
    if nSize <= 3 {
      SmallDecode(nCompact);
    } else {
      LargeDecode(nCompact);
    }
    hide Decode, Modulus, Up, ShiftWordRight, Value, Pow2;
    if nSize <= 3 {
      nWord := ShiftWordRight(nWord, 8 * (3 - nSize));
      AssignUint64(pn, nWord);
      ValueBound(pn[..]);
      DivModUnique(v, 0, v, m);
    } else {
      AssignUint64(pn, nWord);
      ShiftLeft(pn, 8 * (nSize - 3));
    }
    negative := nWord != 0 && SignOf(nCompact);
    overflow := nWord != 0 && (nSize > 34 || (nWord > 0xff && nSize > 33) || (nWord > 0xffff && nSize > 32));
  }

  lemma {:induction false} BytesTimes(k: nat, x: int)
    ensures Bytes(k, x) == Pow2(8 * k) * x
  {
    if k > 0 {
      BytesTimes(k - 1, x);
      Pow2Values();
      Pow2Add(8, 8 * (k - 1));
      MulAssoc(256, Pow2(8 * (k - 1)), x);
    }
  }

  lemma BytesPositive(k: nat, x: nat)
    ensures Bytes(k, x) > 0 <==> x > 0
  {
    BytesZero(k);
    if x > 0 { BytesMono(k, 0, x); }
  }

  lemma LargeDecode(n: Limb)
    requires SizeOf(n) > 3
    ensures Decode(n) == Pow2(8 * (SizeOf(n) - 3)) * WordOf(n)
    ensures Decode(n) != 0 <==> WordOf(n) != 0
  {
    BytesTimes(SizeOf(n) - 3, WordOf(n));
    BytesPositive(SizeOf(n) - 3, WordOf(n));
  }

  lemma SmallDecode(n: Limb)
    requires SizeOf(n) <= 3
    ensures ShiftWordRight(WordOf(n), 8 * (3 - SizeOf(n))) == Decode(n)
  {
    Pow2Values();
    assert Pow2(24) == 0x100_0000 by { Pow2Add(8, 16); }
  }

  lemma OverflowExact(n: Limb)
    ensures var size, word := SizeOf(n), WordOf(n);
            Decode(n) >= Modulus(WIDTH) <==>
            word != 0 && (size > 34 || (word > 0xff && size > 33) || (word > 0xffff && size > 32))
  {
    var size, word, w := SizeOf(n), WordOf(n), WIDTH;
    BytesUp(w, 1);
    if size >= 35 {
      BytesGrow(4 * w, size - 3, word);
      BytesZero(size - 3);
      if word > 1 { BytesMono(4 * w, 1, word); }
    } else if size == 34 {
      BytesShift(size - 3, 1);
      if word < 256 { BytesMono(size - 3, word, 256); }
      if word > 256 { BytesMono(size - 3, 256, word); }
    } else if size == 33 {
      BytesShift(size - 2, 1);
      BytesShift(size - 3, 256);
      if word < 0x1_0000 { BytesMono(size - 3, word, 0x1_0000); }
      if word > 0x1_0000 { BytesMono(size - 3, 0x1_0000, word); }
    } else {
      BytesShift(4 * w - 1, 1);
      BytesShift(4 * w - 2, 256);
      BytesShift(4 * w - 3, 0x1_0000);
      BytesMono(4 * w - 3, word, 0x100_0000);
      if size >= 3 {
        BytesGrow(size - 3, 4 * w - 3, word);
      } else {
        BytesGrow(0, 4 * w - 3, word);
      }
    }
  }

  // ----- Encoding -----

  function Unsigned(n: Limb): (r: Limb) {
    if SignOf(n) then n - 0x80_0000 else n
  }

  method GetCompact(pn: array<Limb>, fNegative: bool) returns (r: Limb)
    requires pn.Length == WIDTH
    ensures Rounds(Unsigned(r), Value(pn[..]))
    ensures SignOf(r) <==> fNegative && Value(pn[..]) != 0
  {
    var nSize, nCompact := LeadingBytes(pn);
    ghost var v := Value(pn[..]);
    Finish(v, nSize, nCompact);
    if (nCompact / 0x80_0000) % 2 == 1 {
      nCompact := nCompact / 0x100;
      nSize := nSize + 1;
    }
    assert nCompact <= 0x7f_ffff && nSize < 256;
    r := Assemble(nSize, nCompact, fNegative);
  }

  method LeadingBytes(pn: array<Limb>) returns (nSize: nat, nCompact: nat)
    requires pn.Length == WIDTH
    ensures Leading(Value(pn[..]), nSize, nCompact)
  {
    assert Pow2(0) == 1;
    hide Value, Pow2, Bytes, Leading, BitLength;
    var bits := Bits(pn);
    nSize := (bits + 7) / 8;
    if nSize <= 3 {
      MantissaSmall(Value(pn[..]), bits, nSize);
      var low := GetLow64(pn);
      DivModUnique(Value(pn[..]), 0, Value(pn[..]), MAX_UINT64 + 1);
      nCompact := Truncated(low, 8 * (3 - nSize));
    } else {
      var bn := Copy(pn);
      ShiftRight(bn, 8 * (nSize - 3));
      MantissaLarge(Value(pn[..]), bits, nSize, Value(bn[..]));
      var low := GetLow64(bn);
      DivModUnique(Value(bn[..]), 0, Value(bn[..]), MAX_UINT64 + 1);
      nCompact := Truncated(low, 0);
    }
  }

  /** A left shift whose result is cut to 32 bits. */
  method Truncated(low: nat, n: nat) returns (r: Limb)
    ensures low * Pow2(n) < BASE ==> r == low * Pow2(n)
  {
    MulLe(0, low, Pow2(n));
    r := (low * Pow2(n)) % BASE;
  }

  method Assemble(nSize: nat, nWord: nat, fNegative: bool) returns (r: Limb)
    requires nSize < 256 && nWord < 0x80_0000
    ensures Unsigned(r) == nSize * 0x100_0000 + nWord
    ensures SignOf(r) <==> fNegative && nWord != 0
  {
    Pack(nWord, nSize);
    var nCompact := Or(nWord, nSize * 0x100_0000);
    assert nCompact == nSize * 0x100_0000 + nWord;
    Fields(nSize, nWord);
    r := Or(nCompact, if fNegative && WordOf(nCompact) != 0 then 0x80_0000 else 0);
  }

  /** `m` holds the top three of the `size` bytes of `v`. */
  ghost predicate Leading(v: nat, size: nat, m: nat) {
    if v == 0 then size == 0 && m == 0
    else && 1 <= size <= 32 && 0x1_0000 <= m < 0x100_0000
         && (if size <= 3 then m == Bytes(3 - size, v) else Bytes(size - 3, m) <= v < Bytes(size - 3, m + 1))
  }

  lemma ByteLength(v: nat, bits: nat, size: nat)
    requires BitLength(v, bits) && size == (bits + 7) / 8 && v > 0
    ensures size >= 1 && Bytes(size - 1, 1) <= v < Bytes(size, 1)
  {
    BytesTimes(size - 1, 1);
    BytesTimes(size, 1);
    Pow2Mono(8 * (size - 1), bits - 1);
    Pow2Mono(bits, 8 * size);
  }

  lemma MantissaSmall(v: nat, bits: nat, size: nat)
    requires BitLength(v, bits) && size == (bits + 7) / 8 && size <= 3
    ensures v < 0x100_0000 && v * Pow2(8 * (3 - size)) == Bytes(3 - size, v)
    ensures 0 <= Bytes(3 - size, v) < 0x100_0000 && Leading(v, size, Bytes(3 - size, v))
  {
    BytesTimes(3 - size, v);
    if v == 0 {
      BytesZero(3 - size);
      assert bits == 0;
    } else {
      ByteLength(v, bits, size);
      hide Pow2, BitLength, Bytes, Leading;
      Commute(v, Pow2(8 * (3 - size)));
      LeadingSmall(v, size);
    }
  }

  lemma LeadingSmall(v: nat, size: nat)
    requires 1 <= size <= 3 && Bytes(size - 1, 1) <= v < Bytes(size, 1) && v > 0
    ensures v < 0x100_0000 && 0 <= Bytes(3 - size, v) < 0x100_0000 && Leading(v, size, Bytes(3 - size, v))
  {
    SmallBytes(v);
    hide Bytes;
  }

  lemma SmallBytes(v: int)
    ensures Bytes(0, v) == v && Bytes(1, v) == 256 * v && Bytes(2, v) == 0x1_0000 * v
    ensures Bytes(0, 1) == 1 && Bytes(1, 1) == 256 && Bytes(2, 1) == 0x1_0000 && Bytes(3, 1) == 0x100_0000
  {
    assert Bytes(1, v) == 256 * Bytes(0, v) && Bytes(2, v) == 256 * Bytes(1, v);
    assert Bytes(1, 1) == 256 * Bytes(0, 1) && Bytes(2, 1) == 256 * Bytes(1, 1) && Bytes(3, 1) == 256 * Bytes(2, 1);
  }

  lemma MantissaLarge(v: nat, bits: nat, size: nat, m: nat)
    requires BitLength(v, bits) && size == (bits + 7) / 8 && 3 < size <= 32 && m == v / Pow2(8 * (size - 3))
    ensures Leading(v, size, m) && v > 0 && m < 0x100_0000
  {
    Pow2Mono(0, bits - 1);
    ByteLength(v, bits, size);
    TopBytes(v, size - 3, Pow2(8 * (size - 3)), m);
  }

  lemma TopBytes(v: nat, k: nat, p: nat, m: nat)
    requires Bytes(k + 2, 1) <= v < Bytes(k + 3, 1) && p == Pow2(8 * k) && m == v / p
    ensures Bytes(k, m) <= v < Bytes(k, m + 1) && 0x1_0000 <= m < 0x100_0000
  {
    BytesTimes(k, m);
    BytesTimes(k, m + 1);
    Floor(v, p, m);
    BytesShift(k + 1, 1);
    BytesShift(k, 256);
    BytesShift(k + 2, 1);
    BytesShift(k + 1, 256);
    BytesShift(k, 0x1_0000);
    if m >= 0x100_0000 { BytesAtMost(k, 0x100_0000, m); }
    if m + 1 <= 0x1_0000 { BytesAtMost(k, m + 1, 0x1_0000); }
  }

  lemma Floor(v: nat, p: nat, m: nat)
    requires p > 0 && m == v / p
    ensures p * m <= v < p * (m + 1)
  {
    assert v == p * m + v % p;
    assert p * (m + 1) == p * m + p;
  }

  lemma BytesAtMost(k: nat, x: int, y: int)
    requires x <= y
    ensures Bytes(k, x) <= Bytes(k, y)
  {
    if x < y { BytesMono(k, x, y); }
  }

  /** Clearing the sign bit by giving up the last byte of the mantissa. */
  lemma Finish(v: nat, size: nat, m: nat)
    requires Leading(v, size, m)
    ensures m < 0x80_0000 ==> size < 256 && Rounds(size * 0x100_0000 + m, v) && (v == 0 <==> m == 0)
    ensures m >= 0x80_0000 ==> m / 256 < 0x80_0000 && size < 255 && v != 0
                               && Rounds((size + 1) * 0x100_0000 + m / 256, v)
  {
    if v != 0 {
      if size <= 3 {
        FinishSmall(v, size, m);
      } else {
        FinishLarge(v, size, m);
      }
    }
  }

  lemma FinishSmall(v: nat, size: nat, m: nat)
    requires Leading(v, size, m) && v > 0 && size <= 3
    ensures m < 0x80_0000 ==> Rounds(size * 0x100_0000 + m, v)
    ensures m >= 0x80_0000 ==> Rounds((size + 1) * 0x100_0000 + m / 256, v)
  {
    assert size == 1 ==> Bytes(2, v) == 256 * Bytes(1, v) && Bytes(1, v) == 256 * Bytes(0, v);
    assert size == 2 ==> Bytes(1, v) == 256 * Bytes(0, v);
    var c: Limb := if m < 0x80_0000 then size * 0x100_0000 + m else (size + 1) * 0x100_0000 + m / 256;
    if m < 0x80_0000 { Fields(size, m); } else { Fields(size + 1, m / 256); }
    assert Bytes(1, m / 256) == 256 * Bytes(0, m / 256) && Bytes(1, 1) == 256 * Bytes(0, 1);
  }

  lemma FinishLarge(v: nat, size: nat, m: nat)
    requires Leading(v, size, m) && v > 0 && size > 3
    ensures m < 0x80_0000 ==> Rounds(size * 0x100_0000 + m, v)
    ensures m >= 0x80_0000 ==> Rounds((size + 1) * 0x100_0000 + m / 256, v)
  {
    var k := size - 3;
    var c: Limb := if m < 0x80_0000 then size * 0x100_0000 + m else (size + 1) * 0x100_0000 + m / 256;
    if m < 0x80_0000 { Fields(size, m); } else { Fields(size + 1, m / 256); }
    BytesAdd(k, m, 1);
    BytesShift(k, m / 256);
    BytesAtMost(k, 256 * (m / 256), m);
    BytesShift(k, m / 256 + 1);
    BytesAtMost(k, m + 1, 256 * (m / 256 + 1));
    BytesAdd(k + 1, m / 256, 1);
  }

  lemma Fields(size: nat, word: nat)
    requires word < 0x80_0000 && size < 256
    ensures var n: Limb := size * 0x100_0000 + word;
            SizeOf(n) == size && WordOf(n) == word && !SignOf(n) && Unsigned(n) == n
    ensures var n: Limb := size * 0x100_0000 + 0x80_0000 + word;
            SizeOf(n) == size && WordOf(n) == word && SignOf(n) && Unsigned(n) == n - 0x80_0000
  {
  }

  lemma Pack(word: nat, size: nat)
    requires word < 0x80_0000 && size < 256
    ensures Or(word, size * 0x100_0000) == size * 0x100_0000 + word == Or(size * 0x100_0000, word)
    ensures Or(size * 0x100_0000 + word, 0x80_0000) == size * 0x100_0000 + 0x80_0000 + word
    ensures Or(size * 0x100_0000 + word, 0) == size * 0x100_0000 + word
  {
    Pow2Values();
    Pow2Add(8, 16);
    assert Pow2(24) == 2 * Pow2(23);
    OrDisjoint(word, size, 24);
    OrSplit(word, 2 * size, 23);
  }

  lemma {:induction false} OrSplit(a: nat, c: nat, k: nat)
    requires a < Pow2(k)
    ensures Or(a + c * Pow2(k), Pow2(k)) == a + Or(c, 1) * Pow2(k)
  {
    if k > 0 {
      var p := Pow2(k - 1);
      Double(c, p);
      Double(Or(c, 1), p);
      OrSplit(a / 2, c, k - 1);
    }
  }

  // ----- The next harder target -----

  /** `r` is the canonical encoding just before `n`. */
  ghost predicate JustBefore(r: Limb, n: Limb) {
    && Canonical(r) && Decode(r) < Decode(n)
    && forall c: Limb :: Canonical(c) && Decode(c) < Decode(n) ==> Decode(c) <= Decode(r)
  }

  /** Steps to the next harder target.  The two assertions of the code fail exactly where there is none that is
      not zero. */
  method GetNextHarderCompactBits(nBits: Limb) returns (ok: bool, r: Limb)
    ensures Canonical(nBits) ==> (ok <==> Decode(nBits) >= 2)
    ensures Canonical(nBits) && ok ==> JustBefore(r, nBits) && r != 0
  {
    var nSize, nWord := SizeOf(nBits), WordOf(nBits);
    Parts(nBits);
    if nWord == 0 {
      return false, 0;
    }
    hide Or, ClearLow, Decode, JustBefore;
    nWord := nWord - 1;
    while nWord < 0x8000 && nSize > 1
      invariant 0 <= nWord < 0x80_0000 && 0 <= nSize < 256
      invariant Canonical(nBits) ==>
          || (nSize == SizeOf(nBits) && nWord == WordOf(nBits) - 1)
          || (nSize == SizeOf(nBits) - 1 && WordOf(nBits) == 0x8000 && nWord == 0x7f_ffff)
      decreases nSize
    {
      Pow2Values();
      OrDisjoint(0xff, nWord, 8);
      nWord := Or(nWord * 0x100, 0xff);
      nSize := nSize - 1;
    }
    ghost var word := nWord;
    if nSize < 3 {
      nWord := ClearLow(nWord, 8 * (3 - nSize));
      Cleared(word, nSize);
    }
    if Canonical(nBits) { Harder(nBits, nSize, word, nWord); }
    if nWord <= 1 {
      return false, 0;
    }
    Pack(nWord, nSize);
    return true, Or(nSize * 0x100_0000, nWord);
  }

  /** And with the complement of a low mask: the low `n` bits become zero. */
  function ClearLow(w: nat, n: nat): (r: nat) {
    ModLe(w, Pow2(n));
    w - w % Pow2(n)
  }

  lemma ModLe(a: nat, d: int)
    requires d >= 1
    ensures 0 <= a % d <= a
  {
    DivLe(a, d);
    MulLe(0, a / d, d);
    assert a == (a / d) * d + a % d;
  }

  lemma Cleared(w: nat, size: nat)
    requires size < 3
    ensures size == 2 ==> ClearLow(w, 8 * (3 - size)) == w - w % 0x100
    ensures size == 1 ==> ClearLow(w, 8 * (3 - size)) == w - w % 0x1_0000
    ensures ClearLow(w, 8 * (3 - size)) <= w
  {
    Pow2Values();
    ModLe(w, Pow2(8 * (3 - size)));
  }

  /** The mantissa before and after the bits that decoding ignores are cleared. */
  predicate OneLess(n: Limb, size: nat, word: nat, w: nat) {
    && (|| (size == SizeOf(n) >= 1 && word == WordOf(n) - 1 && (word >= 0x8000 || size == 1))
        || (size == SizeOf(n) - 1 && size >= 1 && WordOf(n) == 0x8000 && word == 0x7f_ffff))
    && w == if size == 1 then word - word % 0x1_0000 else if size == 2 then word - word % 0x100 else word
  }

  lemma Harder(n: Limb, size: nat, word: nat, w: nat)
    requires Canonical(n) && n != 0 && OneLess(n, size, word, w)
    ensures if Decode(n) < 2 then w <= 1
            else w > 1 && JustBefore(size * 0x100_0000 + w, n) && size * 0x100_0000 + w != 0
  {
    OneStep(n, size, word, w);
    if Decode(n) >= 2 {
      var r: Limb := size * 0x100_0000 + w;
      OrderPreserved(r, n);
      forall c: Limb | Canonical(c) && Decode(c) < Decode(n) ensures Decode(c) <= Decode(r) {
        if n < c { OrderPreserved(n, c); }
        NoneBetween(n, size, word, w, c);
        if c < r { OrderPreserved(c, r); }
      }
    }
  }

  lemma OneStep(n: Limb, size: nat, word: nat, w: nat)
    requires Canonical(n) && n != 0 && OneLess(n, size, word, w)
    ensures Decode(n) < 2 ==> w <= 1
    ensures Decode(n) >= 2 ==> w >= 0x8000 && Canonical(size * 0x100_0000 + w) && size * 0x100_0000 + w < n
  {
    Fields(size, w);
    if SizeOf(n) >= 2 {
      SizeRange(n);
      LeastGrows(2, SizeOf(n));
      assert Least(2) == 128;
    }
  }

  lemma Parts(n: Limb)
    ensures !SignOf(n) ==> n == SizeOf(n) * 0x100_0000 + WordOf(n)
    ensures WordOf(n) < 0x80_0000
    ensures n == 0 ==> SizeOf(n) == WordOf(n) == 0
  {
  }

  lemma NoneBetween(n: Limb, size: nat, word: nat, w: nat, c: Limb)
    requires Canonical(n) && n != 0 && OneLess(n, size, word, w) && Canonical(c) && c < n
    ensures c <= size * 0x100_0000 + w
  {
    Parts(c);
    Parts(n);
    hide SizeOf, WordOf, SignOf;
    assert SizeOf(c) <= size;
    assert SizeOf(c) == size ==> WordOf(c) <= w;
  }
}
