/** What the cashaddr checksum computes: the remainder of a polynomial over the field of 32 elements. */
module CashAddrField {
  import opened CashAddr

  // ----- The field -----

  /** Times the generator of the field, whose fifth power is its third power plus one. */
  function Twice(a: bv8): (r: bv8) {
    if a & 0x10 != 0 then (a << 1) ^ 0x29 else a << 1
  }

  function Bit(a: bv8, bit: bv8, b: bv8): (r: bv8) {
    if a & bit != 0 then b else 0
  }

  /** The product: the sum of the doubled `b` over the bits of `a`. */
  function Mul(a: bv8, b: bv8): (r: bv8) {
    var b2 := Twice(b);
    var b4 := Twice(b2);
    var b8 := Twice(b4);
    var b16 := Twice(b8);
    Add(Add(Add(Add(Bit(a, 1, b), Bit(a, 2, b2)), Bit(a, 4, b4)), Bit(a, 8, b8)), Bit(a, 16, b16))
  }

  // ----- Polynomials, the highest coefficient first -----

  /** The generator of the code without its leading one. */
  function Tail(i: nat): (r: bv8) {
    if i == 0 then 19 else if i == 1 then 3 else if i == 2 then 25 else if i == 3 then 11
    else if i == 4 then 25 else if i == 5 then 3 else if i == 6 then 19 else 1
  }

  /** `a` times the generator. */
  function Scaled(a: bv8): (r: seq<bv8>)
    ensures |r| == 9
  {
    [a] + seq(8, i requires 0 <= i < 8 => Mul(a, Tail(i)))
  }

  /** A quotient times the generator. */
  function TimesGenerator(q: seq<bv8>): (r: seq<bv8>)
    ensures |r| == |q| + 8
  {
    if q == [] then Blank(8)
    else
      var n := |q| - 1;
      XorAll(TimesGenerator(q[..n]) + [0], Blank(n) + Scaled(q[n]))
  }

  /** The input as a polynomial, with a one in front. */
  function Dividend(v: seq<bv8>): (r: seq<bv8>)
    ensures |r| == |v| + 8
  {
    Unpack(1) + v
  }

  // ----- One round, group by group -----

  lemma {:induction false} DownXor(a: bv40, b: bv40, n: nat)
    ensures Down(Xor(a, b), n) == Xor(Down(a, n), Down(b, n))
  {
    hide Xor, Drop;
    if n > 0 {
      DownXor(a, b, n - 1);
      DropXor(Down(a, n - 1), Down(b, n - 1));
    }
  }

  lemma DropXor(a: bv40, b: bv40)
    ensures Drop(Xor(a, b)) == Xor(Drop(a), Drop(b))
  {
  }

  lemma LowXor(a: bv40, b: bv40)
    ensures Low(Xor(a, b)) == Add(Low(a), Low(b))
  {
  }

  lemma GroupXor(a: bv40, b: bv40, i: nat)
    requires i < 8
    ensures Group(Xor(a, b), i) == Add(Group(a, i), Group(b, i))
  {
    hide Xor, Low, Add;
    DownXor(a, b, 7 - i);
    LowXor(Down(a, 7 - i), Down(b, 7 - i));
  }

  lemma {:induction false} DownShifted(c: bv40, n: nat)
    requires 1 <= n <= 7
    ensures Down(Shifted(c), n) == Down(c & 0x07_ffff_ffff, n - 1)
  {
    hide Shifted, Drop;
    if n == 1 {
      assert Down(Shifted(c), 1) == Drop(Down(Shifted(c), 0));
      ShiftBack(c);
    } else {
      DownShifted(c, n - 1);
    }
  }

  lemma ShiftBack(c: bv40)
    ensures Drop(Shifted(c)) == c & 0x07_ffff_ffff && Low(Shifted(c)) == 0
  {
  }

  /** The groups as shifts. */
  function At(m: bv40, n: nat): (r: bv40) {
    if n == 0 then m else if n == 1 then m >> 5 else if n == 2 then m >> 10 else if n == 3 then m >> 15
    else if n == 4 then m >> 20 else if n == 5 then m >> 25 else if n == 6 then m >> 30 else m >> 35
  }

  lemma DownIsAt(m: bv40, n: nat)
    requires n <= 7
    ensures Down(m, n) == At(m, n)
  {
    if n < 4 { LowDowns(m); } else { HighDowns(m); }
    hide Down;
  }

  lemma LowDowns(m: bv40)
    ensures Down(m, 0) == m && Down(m, 1) == m >> 5 && Down(m, 2) == m >> 10 && Down(m, 3) == m >> 15
  {
    hide Drop;
    Shifts(m);
    assert Down(m, 1) == Drop(Down(m, 0));
    assert Down(m, 2) == Drop(Down(m, 1));
    assert Down(m, 3) == Drop(Down(m, 2));
  }

  lemma HighDowns(m: bv40)
    ensures Down(m, 4) == m >> 20 && Down(m, 5) == m >> 25 && Down(m, 6) == m >> 30 && Down(m, 7) == m >> 35
  {
    hide Drop;
    LowDowns(m);
    Shifts(m);
    assert Down(m, 4) == Drop(Down(m, 3));
    assert Down(m, 5) == Drop(Down(m, 4));
    assert Down(m, 6) == Drop(Down(m, 5));
    assert Down(m, 7) == Drop(Down(m, 6));
  }

  lemma Shifts(m: bv40)
    ensures Drop(m) == m >> 5 && Drop(m >> 5) == m >> 10 && Drop(m >> 10) == m >> 15 && Drop(m >> 15) == m >> 20
    ensures Drop(m >> 20) == m >> 25 && Drop(m >> 25) == m >> 30 && Drop(m >> 30) == m >> 35
  {
    assert (m >> 5) >> 5 == m >> 10 && (m >> 10) >> 5 == m >> 15 && (m >> 15) >> 5 == m >> 20;
    assert (m >> 20) >> 5 == m >> 25 && (m >> 25) >> 5 == m >> 30 && (m >> 30) >> 5 == m >> 35;
  }

  lemma AtMasked(c: bv40, n: nat)
    requires n <= 6
    ensures Low(At(c & 0x07_ffff_ffff, n)) == Low(At(c, n))
  {
  }

  lemma GroupShifted(c: bv40, i: nat)
    requires i < 8
    ensures Group(Shifted(c), i) == if i < 7 then Group(c, i + 1) else 0
  {
    hide Low, At, Shifted;
    if i < 7 {
      DownShifted(c, 7 - i);
      DownIsAt(c, 6 - i);
      DownIsAt(c & 0x07_ffff_ffff, 6 - i);
      AtMasked(c, 6 - i);
    } else {
      ShiftBack(c);
    }
  }

  lemma GroupWide(d: bv8, i: nat)
    requires i < 8 && d < 32
    ensures Group(Wide(d), i) == if i < 7 then 0 else d
  {
    DownIsAt(Wide(d), 7 - i);
  }

  lemma TopBits(c: bv40)
    ensures var a := Group(c, 0);
            && (c & BIT35 != 0 <==> a & 1 != 0) && (c & BIT36 != 0 <==> a & 2 != 0) && (c & BIT37 != 0 <==> a & 4 != 0)
            && (c & BIT38 != 0 <==> a & 8 != 0) && (c & BIT39 != 0 <==> a & 16 != 0)
  {
    DownIsAt(c, 7);
    hide Down;
  }

  lemma GroupPick(c: bv40, bit: bv40, k: bv40, i: nat)
    requires i < 8
    ensures Group(Pick(c, bit, k), i) == if c & bit != 0 then Group(k, i) else 0
  {
    DownIsAt(0, 7 - i);
  }

  /** The five constants are the generator's tail times the powers of the field's generator. */
  lemma Constants(i: nat)
    requires i < 8
    ensures var k := Tail(i);
            && Group(0x98_f2bc_8e61, i) == k && Group(0x79_b76d_99e2, i) == Twice(k)
            && Group(0xf3_3e5f_b3c4, i) == Twice(Twice(k)) && Group(0xae_2eab_e2a8, i) == Twice(Twice(Twice(k)))
            && Group(0x1e_4f43_e470, i) == Twice(Twice(Twice(Twice(k))))
  {
    Constants0(i);
    Constants1(i);
    hide *;
  }

  lemma Constants0(i: nat)
    requires i < 8
    ensures var k := Tail(i); Group(0x98_f2bc_8e61, i) == k && Group(0x79_b76d_99e2, i) == Twice(k)
  {
    DownIsAt(0x98_f2bc_8e61, 7 - i);
    DownIsAt(0x79_b76d_99e2, 7 - i);
    hide Down;
  }

  lemma Constants1(i: nat)
    requires i < 8
    ensures var k := Tail(i);
            && Group(0xf3_3e5f_b3c4, i) == Twice(Twice(k)) && Group(0xae_2eab_e2a8, i) == Twice(Twice(Twice(k)))
            && Group(0x1e_4f43_e470, i) == Twice(Twice(Twice(Twice(k))))
  {
    DownIsAt(0xf3_3e5f_b3c4, 7 - i);
    DownIsAt(0xae_2eab_e2a8, 7 - i);
    DownIsAt(0x1e_4f43_e470, 7 - i);
    hide Down;
  }

  lemma GroupReduced(c: bv40, i: nat)
    requires i < 8
    ensures Group(Reduced(c), i) == Mul(Group(c, 0), Tail(i))
  {
    hide Group, Pick, Xor, Add, Twice, Tail;
    var p0, p1, p2 := Pick(c, BIT35, 0x98_f2bc_8e61), Pick(c, BIT36, 0x79_b76d_99e2), Pick(c, BIT37, 0xf3_3e5f_b3c4);
    var p3, p4 := Pick(c, BIT38, 0xae_2eab_e2a8), Pick(c, BIT39, 0x1e_4f43_e470);
    GroupXor(p0, p1, i);
    GroupXor(Xor(p0, p1), p2, i);
    GroupXor(Xor(Xor(p0, p1), p2), p3, i);
    GroupXor(Xor(Xor(Xor(p0, p1), p2), p3), p4, i);
    GroupPick(c, BIT35, 0x98_f2bc_8e61, i);
    GroupPick(c, BIT36, 0x79_b76d_99e2, i);
    GroupPick(c, BIT37, 0xf3_3e5f_b3c4, i);
    GroupPick(c, BIT38, 0xae_2eab_e2a8, i);
    GroupPick(c, BIT39, 0x1e_4f43_e470, i);
    TopBits(c);
    Constants(i);
  }

  /** One round over the groups: each moves up, and the one that falls out comes back times the generator's tail. */
  lemma GroupStep(c: bv40, d: bv8, i: nat)
    requires i < 8 && d < 32
    ensures Group(Step(c, d), i) == Add(if i < 7 then Group(c, i + 1) else d, Mul(Group(c, 0), Tail(i)))
  {
    hide Group, Xor, Mul, Shifted, Wide, Reduced, Tail;
    GroupXor(Xor(Shifted(c), Wide(d)), Reduced(c), i);
    GroupXor(Shifted(c), Wide(d), i);
    GroupShifted(c, i);
    GroupWide(d, i);
    GroupReduced(c, i);
    ZeroAdd(if i < 7 then Group(c, i + 1) else d);
  }

  lemma ZeroAdd(a: bv8)
    ensures Add(a, 0) == a && Add(0, a) == a && Add(a, a) == 0
  {
  }

  lemma AddBack(a: bv8, b: bv8)
    ensures Add(b, Add(a, b)) == a
  {
  }

  lemma AddAssoc(a: bv8, b: bv8, c: bv8)
    ensures Add(Add(a, b), c) == Add(a, Add(b, c))
  {
  }

  // ----- Division -----

  /** Shifting in one more value adds a multiple of the generator and leaves the new state. */
  lemma RoundDivides(c: bv40, d: bv8)
    requires d < 32
    ensures Unpack(c) + [d] == XorAll(Scaled(Group(c, 0)), [0] + Unpack(Step(c, d)))
  {
    var a := Group(c, 0);
    var left, right := Unpack(c) + [d], XorAll(Scaled(a), [0] + Unpack(Step(c, d)));
    hide Group, Step, Mul, Tail, Add;
    forall i | 0 <= i < 9 ensures left[i] == right[i] {
      if i == 0 {
        ZeroAdd(a);
      } else {
        GroupStep(c, d, i - 1);
        AddBack(if i < 8 then Group(c, i) else d, Mul(a, Tail(i - 1)));
      }
    }
  }

  /** The state is the remainder: with some quotient the input is the quotient times the generator plus the state. */
  lemma {:induction false} PolyIsRemainder(v: seq<bv8>) returns (q: seq<bv8>)
    requires FiveBits(v)
    ensures |q| == |v| && Dividend(v) == XorAll(TimesGenerator(q), Blank(|v|) + Unpack(Poly(1, v)))
  {
    hide Step, Group, Unpack, Mul, Add, Blank;
    if v == [] {
      q := [];
      SumBlank(Unpack(1));
    } else {
      var n := |v| - 1;
      var q0 := PolyIsRemainder(v[..n]);
      var c := Poly(1, v[..n]);
      var a := Group(c, 0);
      q := q0 + [a];
      RoundDivides(c, v[n]);
      assert q[..n] == q0;
      OneRound(Dividend(v[..n]), TimesGenerator(q0), Unpack(c), Scaled(a), Unpack(Poly(1, v)), v[n], n);
      assert Dividend(v) == Dividend(v[..n]) + [v[n]];
    }
  }

  lemma SumBlank(u: seq<bv8>)
    requires |u| == 8
    ensures u == XorAll(Blank(8), Blank(0) + u)
  {
    forall i | 0 <= i < 8 ensures u[i] == XorAll(Blank(8), Blank(0) + u)[i] { ZeroAdd(u[i]); }
  }

  lemma OneRound(p: seq<bv8>, t: seq<bv8>, u: seq<bv8>, s: seq<bv8>, u': seq<bv8>, d: bv8, n: nat)
    requires |p| == |t| == n + 8 && |u| == |u'| == 8 && |s| == 9
    requires p == XorAll(t, Blank(n) + u) && u + [d] == XorAll(s, [0] + u')
    ensures p + [d] == XorAll(XorAll(t + [0], Blank(n) + s), Blank(n + 1) + u')
  {
    hide Add;
    var r := XorAll(XorAll(t + [0], Blank(n) + s), Blank(n + 1) + u');
    forall i | 0 <= i < n + 9 ensures (p + [d])[i] == r[i] {
      if i < n {
        ZeroAdd(t[i]);
      } else {
        var j := i - n;
        assert (Blank(n) + s)[i] == s[j] && (Blank(n + 1) + u')[i] == ([0] + u')[j];
        AddAssoc((t + [0])[i], s[j], ([0] + u')[j]);
        assert (u + [d])[j] == Add(s[j], ([0] + u')[j]);
        ZeroAdd(d);
      }
    }
  }

  lemma LeadingCoefficients(q: seq<bv8>, i: nat)
    requires i < |q|
    ensures var n := |q| - 1;
            TimesGenerator(q)[i] == if i < n then TimesGenerator(q[..n])[i] else Add(TimesGenerator(q[..n])[n], q[n])
  {
    hide TimesGenerator, Scaled, Add, Blank, XorAll;
    var n := |q| - 1;
    var t := TimesGenerator(q[..n]);
    ProductOf(q);
    ScaledFirst(q[n]);
    if i < n { BlankAt(n, i); }
    Behind(t, Blank(n), Scaled(q[n]), i);
    ZeroAdd(t[i]);
  }

  lemma BlankAt(n: nat, i: nat)
    requires i < n
    ensures Blank(n)[i] == 0
  {
  }

  lemma Behind(t: seq<bv8>, z: seq<bv8>, s: seq<bv8>, i: nat)
    requires |s| == 9 && |t| == |z| + 8 && i <= |z|
    ensures XorAll(t + [0], z + s)[i] == Add(t[i], if i < |z| then z[i] else s[0])
  {
    hide Add;
  }

  lemma ProductOf(q: seq<bv8>)
    requires q != []
    ensures var n := |q| - 1; TimesGenerator(q) == XorAll(TimesGenerator(q[..n]) + [0], Blank(n) + Scaled(q[n]))
  {
  }

  lemma ScaledFirst(a: bv8)
    ensures Scaled(a)[0] == a
  {
    hide Mul;
  }

  /** The generator is monic, so a product shows its quotient in the leading coefficients. */
  lemma {:induction false} QuotientUnique(q: seq<bv8>, p: seq<bv8>)
    requires |q| == |p| && forall i :: 0 <= i < |q| ==> TimesGenerator(q)[i] == TimesGenerator(p)[i]
    ensures q == p
  {
    hide TimesGenerator, Add;
    if q != [] {
      var n := |q| - 1;
      forall i | 0 <= i < n ensures TimesGenerator(q[..n])[i] == TimesGenerator(p[..n])[i] {
        LeadingCoefficients(q, i);
        LeadingCoefficients(p, i);
      }
      QuotientUnique(q[..n], p[..n]);
      LeadingCoefficients(q, n);
      LeadingCoefficients(p, n);
      Cancel(TimesGenerator(q[..n])[n], q[n], p[n]);
      assert q == q[..n] + [q[n]] && p == p[..n] + [p[n]];
    }
  }

  lemma Cancel(a: bv8, b: bv8, c: bv8)
    requires Add(a, b) == Add(a, c)
    ensures b == c
  {
    assert a ^ (a ^ b) == b && a ^ (a ^ c) == c;
  }

  /** No other eight coefficients are a remainder of the input. */
  lemma RemainderUnique(v: seq<bv8>, q: seq<bv8>, r: seq<bv8>)
    requires FiveBits(v) && |q| == |v| && |r| == 8
    requires Dividend(v) == XorAll(TimesGenerator(q), Blank(|v|) + r)
    ensures r == Unpack(Poly(1, v))
  {
    hide Poly, Add, Unpack;
    var n, u := |v|, Unpack(Poly(1, v));
    var p := PolyIsRemainder(v);
    var s, t := TimesGenerator(q), TimesGenerator(p);
    hide TimesGenerator;
    forall i | 0 <= i < n ensures s[i] == t[i] {
      assert Dividend(v)[i] == Add(s[i], 0) == Add(t[i], 0);
      ZeroAdd(s[i]);
      ZeroAdd(t[i]);
    }
    QuotientUnique(q, p);
    forall i | 0 <= i < 8 ensures r[i] == u[i] {
      assert Dividend(v)[n + i] == Add(s[n + i], r[i]) == Add(s[n + i], u[i]);
      Cancel(s[n + i], r[i], u[i]);
    }
  }
}
