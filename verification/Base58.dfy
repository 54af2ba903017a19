/** Base58: big-endian numbers rewritten between base 256 and base 58, in buffers of a size fixed beforehand. */
module Base58 {
  import opened Arith

  // ----- Numbers -----

  predicate Digits(b: nat, s: seq<nat>) {
    forall i :: 0 <= i < |s| ==> s[i] < b
  }

  /** The value of big-endian digits. */
  function Num(b: nat, s: seq<nat>): (v: nat) {
    if s == [] then 0 else Num(b, s[..|s| - 1]) * b + s[|s| - 1]
  }

  lemma {:induction false} NumAppend(b: nat, s: seq<nat>, t: seq<nat>)
    ensures Num(b, s + t) == Num(b, s) * Pow(b, |t|) + Num(b, t)
  {
    if t == [] {
      assert s + t == s;
    } else {
      var n := |t| - 1;
      NumAppend(b, s, t[..n]);
      assert (s + t)[..|s + t| - 1] == s + t[..n];
      Horner(Num(b, s), Pow(b, n), Num(b, t[..n]), b, t[n]);
    }
  }

  lemma Horner(x: nat, p: nat, y: nat, b: nat, d: nat)
    ensures (x * p + y) * b + d == x * (b * p) + (y * b + d)
  {
    MulAssoc(x, p, b);
    Commute(p, b);
  }

  lemma NumCons(b: nat, d: nat, t: seq<nat>)
    ensures Num(b, [d] + t) == d * Pow(b, |t|) + Num(b, t)
  {
    NumAppend(b, [d], t);
    assert Num(b, [d]) == Num(b, []) * b + d;
  }

  lemma {:induction false} NumBound(b: nat, s: seq<nat>)
    requires Digits(b, s) && b > 0
    ensures Num(b, s) < Pow(b, |s|)
  {
    if s != [] {
      var n := |s| - 1;
      NumBound(b, s[..n]);
      MulLe(Num(b, s[..n]) + 1, Pow(b, n), b);
      assert (Num(b, s[..n]) + 1) * b == Num(b, s[..n]) * b + b;
      Commute(Pow(b, n), b);
    }
  }

  // ----- Leading zeros -----

  function Zeros(s: seq<nat>): (n: nat)
    ensures n <= |s|
  {
    if s == [] || s[0] != 0 then 0 else 1 + Zeros(s[1..])
  }

  function Strip(s: seq<nat>): (r: seq<nat>) {
    s[Zeros(s)..]
  }

  lemma {:induction false} StripNum(b: nat, s: seq<nat>)
    ensures Num(b, Strip(s)) == Num(b, s)
    ensures Strip(s) != [] ==> Strip(s)[0] != 0
  {
    if s != [] && s[0] == 0 {
      StripNum(b, s[1..]);
      assert s == [0] + s[1..] && Strip(s) == Strip(s[1..]);
      NumCons(b, 0, s[1..]);
    } else {
      assert Strip(s) == s;
    }
  }

  /** Digits without a leading zero are determined by their value. */
  lemma {:induction false} NumUnique(b: nat, s: seq<nat>, t: seq<nat>)
    requires b > 1 && Digits(b, s) && Digits(b, t) && Num(b, s) == Num(b, t)
    requires (s != [] ==> s[0] != 0) && (t != [] ==> t[0] != 0)
    ensures s == t
  {
    if s == [] {
      if t != [] { NonZero(b, t); }
    } else if t == [] {
      NonZero(b, s);
    } else {
      var m, n := |s| - 1, |t| - 1;
      DivModUnique(Num(b, s), Num(b, s[..m]), s[m], b);
      DivModUnique(Num(b, t), Num(b, t[..n]), t[n], b);
      NumUnique(b, s[..m], t[..n]);
      assert s == s[..m] + [s[m]] && t == t[..n] + [t[n]];
    }
  }

  lemma {:induction false} NonZero(b: nat, s: seq<nat>)
    requires b > 0 && s != [] && s[0] != 0
    ensures Num(b, s) > 0
  {
    assert s == [s[0]] + s[1..];
    NumCons(b, s[0], s[1..]);
    PowPositive(b, |s| - 1);
    MulLe(1, s[0], Pow(b, |s| - 1));
  }

  /** Two numbers, in base 256 and in base 58, with the same value and the same leading zeros. */
  ghost predicate SameNumber(bytes: seq<nat>, digits: seq<nat>) {
    Digits(256, bytes) && Digits(58, digits) && Zeros(bytes) == Zeros(digits) && Num(256, bytes) == Num(58, digits)
  }

  lemma {:induction false} Split(s: seq<nat>)
    ensures s == seq(Zeros(s), i => 0) + Strip(s)
  {
    if s != [] && s[0] == 0 {
      Split(s[1..]);
      assert s == [0] + s[1..];
    }
  }

  /** Each side determines the other. */
  lemma SameNumberUnique(x: seq<nat>, y: seq<nat>, x': seq<nat>, y': seq<nat>)
    requires SameNumber(x, y) && SameNumber(x', y')
    ensures y == y' ==> x == x'
    ensures x == x' ==> y == y'
  {
    if y == y' { Same(256, x, x'); }
    if x == x' { Same(58, y, y'); }
  }

  lemma Same(b: nat, x: seq<nat>, x': seq<nat>)
    requires b > 1 && Digits(b, x) && Digits(b, x') && Zeros(x) == Zeros(x') && Num(b, x) == Num(b, x')
    ensures x == x'
  {
    StripNum(b, x);
    StripNum(b, x');
    NumUnique(b, Strip(x), Strip(x'));
    Split(x);
    Split(x');
  }

  // ----- The buffers are large enough -----

  /** If blocks of `k` digits fit, so do `n` blocks. */
  lemma {:induction false} Blocks(x: nat, y: nat, k: nat, e: nat, n: nat)
    requires x > 0 && y > 0 && Pow(x, k) <= Pow(y, e)
    ensures Pow(x, k * n) <= Pow(y, e * n)
  {
    if n > 0 {
      Blocks(x, y, k, e, n - 1);
      assert k * n == k * (n - 1) + k && e * n == e * (n - 1) + e;
      PowAdd(x, k * (n - 1), k);
      PowAdd(y, e * (n - 1), e);
      Both(Pow(x, k * (n - 1)), Pow(y, e * (n - 1)), Pow(x, k), Pow(y, e));
    }
  }

  lemma Both(a: nat, b: nat, c: nat, d: nat)
    requires a <= b && c <= d
    ensures a * c <= b * d
  {
    MulLe(a, b, c);
    MulLe(c, d, b);
  }

  /** Blocks and a rest, and a buffer no smaller than what they need. */
  lemma Fits(x: nat, y: nat, kn: nat, en: nat, r: nat, f: nat, size: nat)
    requires x > 0 && y > 0 && Pow(x, kn) <= Pow(y, en) && Pow(x, r) <= Pow(y, f) && en + f <= size
    ensures Pow(x, kn + r) <= Pow(y, size)
  {
    hide Pow;
    PowAdd(x, kn, r);
    PowAdd(y, en, f);
    Both(Pow(x, kn), Pow(y, en), Pow(x, r), Pow(y, f));
    PowMono(y, en + f, size);
  }

  lemma SmallPowers()
    ensures Pow(58, 0) == 1 && Pow(256, 0) == 1
    ensures Pow(58, 1) == 58 && Pow(58, 2) == 3364
    ensures Pow(58, 3) == 195112 && Pow(58, 4) == 11316496
    ensures Pow(58, 5) == 656356768 && Pow(58, 6) == 38068692544
    ensures Pow(58, 7) == 2207984167552 && Pow(58, 8) == 128063081718016
    ensures Pow(58, 9) == 7427658739644928 && Pow(58, 10) == 430804206899405824
    ensures Pow(58, 11) == 24986644000165537792 && Pow(58, 12) == 1449225352009601191936
    ensures Pow(58, 13) == 84055070416556869132288 && Pow(58, 14) == 4875194084160298409672704
    ensures Pow(58, 15) == 282761256881297307761016832
    ensures Pow(256, 1) == 256 && Pow(256, 2) == 65536
    ensures Pow(256, 3) == 16777216 && Pow(256, 4) == 4294967296
    ensures Pow(256, 5) == 1099511627776 && Pow(256, 6) == 281474976710656
    ensures Pow(256, 7) == 72057594037927936 && Pow(256, 8) == 18446744073709551616
    ensures Pow(256, 9) == 4722366482869645213696 && Pow(256, 10) == 1208925819614629174706176
    ensures Pow(256, 11) == 309485009821345068724781056
  {
    assert Pow(58, 1) == 58;
    assert Pow(58, 2) == 3364;
    assert Pow(58, 3) == 195112;
    assert Pow(58, 4) == 11316496;
    assert Pow(58, 5) == 656356768;
    assert Pow(58, 6) == 38068692544;
    assert Pow(58, 7) == 2207984167552;
    assert Pow(58, 8) == 128063081718016;
    assert Pow(58, 9) == 7427658739644928;
    assert Pow(58, 10) == 430804206899405824;
    assert Pow(58, 11) == 24986644000165537792;
    assert Pow(58, 12) == 1449225352009601191936;
    assert Pow(58, 13) == 84055070416556869132288;
    assert Pow(58, 14) == 4875194084160298409672704;
    assert Pow(58, 15) == 282761256881297307761016832;
    assert Pow(256, 1) == 256;
    assert Pow(256, 2) == 65536;
    assert Pow(256, 3) == 16777216;
    assert Pow(256, 4) == 4294967296;
    assert Pow(256, 5) == 1099511627776;
    assert Pow(256, 6) == 281474976710656;
    assert Pow(256, 7) == 72057594037927936;
    assert Pow(256, 8) == 18446744073709551616;
    assert Pow(256, 9) == 4722366482869645213696;
    assert Pow(256, 10) == 1208925819614629174706176;
    assert Pow(256, 11) == 309485009821345068724781056;
  }

  /** Base 58 digits for `r` bytes. */
  function Size58(r: nat): (n: nat) {
    r * 138 / 100 + 1
  }

  /** Bytes for `r` base 58 digits. */
  function Size256(r: nat): (n: nat) {
    r * 733 / 1000 + 1
  }

  /** The buffer of the encoder holds every number of `len` bytes. */
  lemma EncodeFits(len: nat)
    ensures Pow(256, len) <= Pow(58, Size58(len))
  {
    hide Pow;
    var n, r := len / 8, len % 8;
    SmallPowers();
    assert Pow(256, r) <= Pow(58, Size58(r));
    Blocks(256, 58, 8, 11, n);
    Fits(256, 58, 8 * n, 11 * n, r, Size58(r), Size58(len));
  }

  /** Eleven bytes hold fifteen digits; the rounding is on the safe side only for a while. */
  lemma ShortFits(r: nat)
    requires r < 71
    ensures Pow(58, r) <= Pow(256, Size256(r))
  {
    hide Pow;
    var b, t := r / 15, r % 15;
    TinyFits(t);
    Room256(b, t);
    Blocks(58, 256, 15, 11, b);
    if t == 0 {
      Fits(58, 256, 15 * b, 11 * b, 0, 0, Size256(r));
    } else {
      Fits(58, 256, 15 * b, 11 * b, t, Size256(t), Size256(r));
    }
  }

  lemma Room256(b: nat, t: nat)
    requires b <= 4 && t < 15
    ensures 11 * b + (if t == 0 then 0 else Size256(t)) <= Size256(15 * b + t)
  {
    if b == 0 {
    } else if b == 1 {
    } else if b == 2 {
    } else if b == 3 {
    }
  }

  lemma TinyFits(t: nat)
    requires t < 15
    ensures Pow(58, t) <= Pow(256, Size256(t)) && Pow(58, 15) <= Pow(256, 11) && Pow(58, 0) == Pow(256, 0)
  {
    SmallPowers();
    hide Pow;
  }

  /** 58^71 is just below 256^52. */
  lemma LongBlock()
    ensures Pow(58, 71) <= Pow(256, 52)
  {
    hide Pow;
    SmallPowers();
    PowAdd(58, 15, 15);
    PowAdd(58, 30, 30);
    PowAdd(58, 60, 11);
    PowAdd(256, 11, 11);
    PowAdd(256, 22, 22);
    PowAdd(256, 44, 8);
  }

  /** The buffer of the decoder holds every number of `len` base 58 digits. */
  lemma DecodeFits(len: nat)
    ensures Pow(58, len) <= Pow(256, Size256(len))
  {
    hide Pow;
    var n, r := len / 71, len % 71;
    LongBlock();
    Blocks(58, 256, 71, 52, n);
    ShortFits(r);
    Fits(58, 256, 71 * n, 52 * n, r, Size256(r), Size256(len));
  }

  // ----- Rewriting a number in place -----

  /** Multiplies the number in the buffer by `m` and adds `ch`, from the last digit to the first; what does not fit
      is left in the carry. */
  lemma DigitPut(b: nat, s: seq<nat>, i: nat, d: int)
    requires Digits(b, s) && i < |s| && 0 <= d < b
    ensures Digits(b, s[i := d])
  {
  }

  method MulAdd(buf: array<nat>, b: nat, m: nat, ch: nat) returns (carry: nat)
    requires b > 1 && Digits(b, buf[..])
    modifies buf
    ensures Digits(b, buf[..])
    ensures Num(b, buf[..]) + carry * Pow(b, buf.Length) == old(Num(b, buf[..])) * m + ch
  {
    ghost var x := buf[..];
    carry := ch;
    var it := buf.Length;
    assert x[it..] == [] && buf[it..] == [];
    assert Carried(b, m, ch, x[it..], buf[it..], carry);
    hide Carried, Num, Pow, Digits;
    while it > 0
      invariant 0 <= it <= buf.Length && buf[..it] == x[..it] && Digits(b, buf[..])
      invariant Carried(b, m, ch, x[it..], buf[it..], carry)
    {
      it := it - 1;
      assert buf[it] == buf[..it + 1][it] == x[it];
      ghost var rest := buf[it + 1..];
      DigitPut(b, buf[..], it, (carry + m * buf[it]) % b);
      MulLe(0, m, buf[it]);
      var t := carry + m * buf[it];
      DivLe(t, b);
      CarryStep(b, m, ch, x[it], x[it + 1..], rest, carry, t / b, t % b);
      buf[it] := t % b;
      carry := t / b;
      assert buf[it..] == [t % b] + rest && x[it..] == [x[it]] + x[it + 1..];
    }
    assert buf[0..] == buf[..] && x[0..] == x;
    CarriedMeans(b, m, ch, x, buf[..], carry);
  }

  /** The digits `after`, with the carry in front, are `before` times `m` plus `ch`. */
  ghost predicate Carried(b: nat, m: nat, ch: nat, before: seq<nat>, after: seq<nat>, carry: nat) {
    |before| == |after| && Num(b, after) + carry * Pow(b, |after|) == Num(b, before) * m + ch
  }

  lemma CarriedMeans(b: nat, m: nat, ch: nat, before: seq<nat>, after: seq<nat>, carry: nat)
    requires Carried(b, m, ch, before, after, carry)
    ensures Num(b, after) + carry * Pow(b, |after|) == Num(b, before) * m + ch
  {
  }

  lemma CarryStep(b: nat, m: nat, ch: nat, d: nat, before: seq<nat>, after: seq<nat>, carry: nat, q: nat, r: nat)
    requires Carried(b, m, ch, before, after, carry) && carry + m * d == b * q + r
    ensures Carried(b, m, ch, [d] + before, [r] + after, q)
  {
    var p := Pow(b, |after|);
    NumCons(b, r, after);
    NumCons(b, d, before);
    PowNext(b, |after|);
    hide Pow, Num;
    CarryArith(b, m, d, carry, p, q, r, Num(b, before), Num(b, after), ch);
  }

  lemma PowNext(b: nat, n: nat)
    ensures Pow(b, n + 1) == b * Pow(b, n)
  {
  }

  lemma CarryArith(b: int, m: int, d: int, carry: int, p: int, q: int, r: int, x: int, y: int, ch: int)
    requires y + carry * p == x * m + ch && carry + m * d == b * q + r
    ensures (r * p + y) + q * (b * p) == (d * p + x) * m + ch
  {
    assert (d * p + x) * m == (m * d) * p + x * m;
    assert (carry + m * d) * p == carry * p + (m * d) * p;
    assert (b * q + r) * p == q * (b * p) + r * p;
  }

  // ----- Converting a whole number -----

  /** The digits of one number written in the other base, into a buffer that is large enough: the carry that the code
      asserts to be zero is zero. */
  method Convert(src: seq<nat>, m: nat, b: nat, size: nat) returns (buf: array<nat>)
    requires b > 1 && m > 1 && Digits(m, src) && Pow(m, |src|) <= Pow(b, size)
    ensures fresh(buf) && buf.Length == size && Digits(b, buf[..])
    ensures Num(b, buf[..]) == Num(m, src)
  {
    buf := new nat[size](_ => 0);
    AllZero(b, buf[..]);
    var i := 0;
    while i < |src|
      invariant 0 <= i <= |src| && Digits(b, buf[..]) && Num(b, buf[..]) == Num(m, src[..i])
    {
      assert src[..i + 1][..i] == src[..i];
      NumBound(m, src[..i + 1]);
      PowMono(m, i + 1, |src|);
      Append(buf, b, m, src[i], Num(m, src[..i + 1]));
      i := i + 1;
    }
    assert src[..|src|] == src;
  }

  /** One more digit of the source; the carry that the code asserts to be zero is zero when the number fits. */
  method Append(buf: array<nat>, b: nat, m: nat, ch: nat, ghost v: nat)
    requires b > 1 && Digits(b, buf[..]) && Num(b, buf[..]) * m + ch == v < Pow(b, buf.Length)
    modifies buf
    ensures Digits(b, buf[..]) && Num(b, buf[..]) == v
  {
    hide Num, Pow;
    var carry := MulAdd(buf, b, m, ch);
    NoCarry(Num(b, buf[..]), carry, Pow(b, buf.Length), v);
    assert carry == 0;
  }

  lemma NoCarry(x: nat, carry: nat, p: nat, v: nat)
    requires x + carry * p == v < p
    ensures carry == 0
  {
    if carry > 0 {
      MulLe(1, carry, p);
      assert false;
    }
  }

  lemma {:induction false} AllZero(b: nat, s: seq<nat>)
    requires forall i :: 0 <= i < |s| ==> s[i] == 0
    ensures Num(b, s) == 0
  {
    if s != [] { AllZero(b, s[..|s| - 1]); }
  }
}
