/** Base58 strings: the alphabet, encoding and decoding. */
module Base58Text {
  import opened Arith
  import opened Base58
  import opened Basics

  // ----- The alphabet -----

  /** Digit `k` as a character: the alphanumeric characters in order, without 0, I, O and l. */
  function Alpha(k: nat): (c: char)
    requires k < 58
  {
    if k < 9 then '1' + (k as char)
    else if k < 17 then 'A' + ((k - 9) as char)
    else if k < 22 then 'J' + ((k - 17) as char)
    else if k < 33 then 'P' + ((k - 22) as char)
    else if k < 44 then 'a' + ((k - 33) as char)
    else 'm' + ((k - 44) as char)
  }

  function Digit(c: char): (k: Option<nat>) {
    if '1' <= c <= '9' then Some((c - '1') as nat)
    else if 'A' <= c <= 'H' then Some((c - 'A') as nat + 9)
    else if 'J' <= c <= 'N' then Some((c - 'J') as nat + 17)
    else if 'P' <= c <= 'Z' then Some((c - 'P') as nat + 22)
    else if 'a' <= c <= 'k' then Some((c - 'a') as nat + 33)
    else if 'm' <= c <= 'z' then Some((c - 'm') as nat + 44)
    else None
  }

  predicate IsSpace(c: char) {
    c == ' ' || '\t' <= c <= '\r'
  }

  lemma DigitAlpha(k: nat)
    requires k < 58
    ensures Digit(Alpha(k)) == Some(k) && !IsSpace(Alpha(k)) && (Alpha(k) == '1' <==> k == 0)
  {
  }

  lemma AlphaDigit(c: char)
    requires Digit(c).Some?
    ensures Digit(c).value < 58 && Alpha(Digit(c).value) == c && !IsSpace(c)
  {
  }

  predicate InAlphabet(s: string) {
    forall i :: 0 <= i < |s| ==> Digit(s[i]).Some?
  }

  function DigitsOf(s: string): (r: seq<nat>)
    requires InAlphabet(s)
    ensures |r| == |s| && forall i :: 0 <= i < |r| ==> r[i] == Digit(s[i]).value
  {
    seq(|s|, i requires 0 <= i < |s| => Digit(s[i]).value)
  }

  /** The string `s` stands for the bytes. */
  ghost predicate Stands(bytes: seq<nat>, s: string) {
    InAlphabet(s) && SameNumber(bytes, DigitsOf(s))
  }

  // ----- Padding -----

  /** `z` zeros in front of digits that have no leading zero. */
  function Padded(z: nat, s: seq<nat>): (r: seq<nat>) {
    seq(z, _ => 0) + s
  }

  lemma {:induction false} PaddedNumber(b: nat, z: nat, s: seq<nat>)
    ensures Num(b, Padded(z, s)) == Num(b, s)
    ensures (s == [] || s[0] != 0) ==> Zeros(Padded(z, s)) == z
  {
    if z == 0 {
      assert Padded(z, s) == s;
    } else {
      PaddedNumber(b, z - 1, s);
      assert Padded(z, s) == [0] + Padded(z - 1, s);
      assert Padded(z, s)[1..] == Padded(z - 1, s);
      NumCons(b, 0, Padded(z - 1, s));
    }
  }

  /** Where the digits in a buffer start. */
  method FirstDigit(buf: array<nat>) returns (it: nat)
    ensures it == Zeros(buf[..]) && it <= buf.Length
  {
    it := 0;
    assert buf[0..] == buf[..];
    while it < buf.Length && buf[it] == 0
      invariant it <= buf.Length && Zeros(buf[..]) == it + Zeros(buf[it..])
    {
      assert buf[it..][1..] == buf[it + 1..];
      it := it + 1;
    }
  }

  // ----- Encoding -----

  method EncodeBase58(bytes: seq<nat>) returns (str: string)
    requires Digits(256, bytes)
    ensures Stands(bytes, str)
  {
    var zeroes := 0;
    assert bytes[0..] == bytes;
    while zeroes < |bytes| && bytes[zeroes] == 0
      invariant zeroes <= |bytes| && Zeros(bytes) == zeroes + Zeros(bytes[zeroes..])
    {
      assert bytes[zeroes..][1..] == bytes[zeroes + 1..];
      zeroes := zeroes + 1;
    }
    var rest := bytes[zeroes..];
    StripNum(256, bytes);
    EncodeFits(|rest|);
    var b58 := Convert(rest, 256, 58, Size58(|rest|));
    var it := FirstDigit(b58);
    StripNum(58, b58[..]);
    ghost var digits := Strip(b58[..]);
    assert digits == b58[it..];
    PaddedNumber(58, zeroes, digits);
    str := Spell(zeroes, b58, it);
  }

  /** Ones for the leading zeros, then the characters of the digits. */
  method Spell(zeroes: nat, b58: array<nat>, start: nat) returns (str: string)
    requires Digits(58, b58[..]) && start <= b58.Length
    ensures InAlphabet(str) && DigitsOf(str) == Padded(zeroes, b58[start..]) && Digits(58, DigitsOf(str))
  {
    ghost var digits := b58[start..];
    str := seq(zeroes, _ => '1');
    var it := start;
    while it < b58.Length
      invariant start <= it <= b58.Length && |str| == zeroes + (it - start)
      invariant forall i :: 0 <= i < zeroes ==> str[i] == '1'
      invariant forall i :: 0 <= i < it - start ==> str[zeroes + i] == Alpha(digits[i])
    {
      assert b58[it] == digits[it - start];
      str := str + [Alpha(b58[it])];
      it := it + 1;
    }
    Spelled(str, zeroes, digits);
  }

  lemma Spelled(str: string, z: nat, digits: seq<nat>)
    requires Digits(58, digits) && |str| == z + |digits|
    requires forall i :: 0 <= i < z ==> str[i] == '1'
    requires forall i :: 0 <= i < |digits| ==> str[z + i] == Alpha(digits[i])
    ensures InAlphabet(str) && DigitsOf(str) == Padded(z, digits) && Digits(58, Padded(z, digits))
  {
    forall i | 0 <= i < |str| ensures Digit(str[i]) == Some(Padded(z, digits)[i]) {
      if i >= z { DigitAlpha(digits[i - z]); assert str[z + (i - z)] == Alpha(digits[i - z]); }
    }
  }

  // ----- Decoding -----

  /** A C string: spaces, then characters, then anything. */
  function Skip(s: string): (n: nat)
    ensures n <= |s|
  {
    if s != [] && IsSpace(s[0]) then 1 + Skip(s[1..]) else 0
  }

  function Run(s: string): (n: nat)
    ensures n <= |s|
  {
    if s != [] && !IsSpace(s[0]) then 1 + Run(s[1..]) else 0
  }

  predicate AllSpace(s: string) {
    forall i :: 0 <= i < |s| ==> IsSpace(s[i])
  }

  /** What stands between leading spaces and the next space. */
  function Core(s: string): (r: string) {
    var t := s[Skip(s)..];
    t[..Run(t)]
  }

  predicate WellFormed(s: string) {
    var t := s[Skip(s)..];
    InAlphabet(t[..Run(t)]) && AllSpace(t[Run(t)..])
  }

  lemma {:induction false} SkipIs(s: string, n: nat)
    requires n <= |s| && AllSpace(s[..n]) && (n == |s| || !IsSpace(s[n]))
    ensures Skip(s) == n
  {
    if n > 0 {
      assert s[..n][0] == s[0];
      assert s[1..][..n - 1] == s[..n][1..];
      SkipIs(s[1..], n - 1);
    }
  }

  lemma {:induction false} RunIs(s: string, n: nat)
    requires n <= |s| && (forall i :: 0 <= i < n ==> !IsSpace(s[i])) && (n == |s| || IsSpace(s[n]))
    ensures Run(s) == n
  {
    if n > 0 { RunIs(s[1..], n - 1); }
  }

  lemma {:induction false} RunAtLeast(s: string, n: nat)
    requires n <= |s| && forall i :: 0 <= i < n ==> !IsSpace(s[i])
    ensures Run(s) >= n
  {
    if n > 0 { RunAtLeast(s[1..], n - 1); }
  }

  /** Decodes a C string; white space around the number is allowed. */
  method DecodeBase58(psz: string) returns (r: Option<seq<nat>>)
    requires '\0' !in psz
    ensures r.Some? <==> WellFormed(psz)
    ensures r.Some? ==> Stands(r.value, Core(psz))
  {
    var p := 0;
    while p < |psz| && IsSpace(psz[p])
      invariant p <= |psz| && AllSpace(psz[..p])
    {
      p := p + 1;
    }
    SkipIs(psz, p);
    r := DecodeFrom(psz[p..]);
  }

  /** The part after the leading spaces. */
  method DecodeFrom(t: string) returns (r: Option<seq<nat>>)
    ensures r.Some? <==> InAlphabet(t[..Run(t)]) && AllSpace(t[Run(t)..])
    ensures r.Some? ==> Stands(r.value, t[..Run(t)])
  {
    hide Digit, Num, Zeros, Stands, IsSpace, Run, Padded, DigitsOf;
    var zeroes := CountOnes(t);
    var ok, b256, p := ReadDigits(t, zeroes);
    if !ok {
      RunAtLeast(t, p + 1);
      assert t[..Run(t)][p] == t[p];
      return None;
    }
    RunIs(t, p);
    var blank := OnlySpace(t, p);
    if !blank {
      return None;
    }
    var it := FirstDigit(b256);
    assert t[..p][zeroes..] == t[zeroes..p];
    Result(t[..p], zeroes, b256[..]);
    return Some(Padded(zeroes, b256[it..]));
  }

  method CountOnes(t: string) returns (zeroes: nat)
    ensures zeroes <= |t| && (forall i :: 0 <= i < zeroes ==> t[i] == '1') && (zeroes < |t| ==> t[zeroes] != '1')
  {
    zeroes := 0;
    while zeroes < |t| && t[zeroes] == '1'
      invariant zeroes <= |t| && forall i :: 0 <= i < zeroes ==> t[i] == '1'
    {
      zeroes := zeroes + 1;
    }
  }

  method OnlySpace(t: string, p: nat) returns (blank: bool)
    requires p <= |t|
    ensures blank <==> AllSpace(t[p..])
  {
    var q := p;
    while q < |t| && IsSpace(t[q])
      invariant p <= q <= |t| && forall i :: p <= i < q ==> IsSpace(t[i])
    {
      q := q + 1;
    }
    if q < |t| { assert t[p..][q - p] == t[q]; }
    blank := q == |t|;
  }

  /** The number between position `start` and the next space, in base 256.  The buffer is sized by the rest of the
      string, and the asserted carry is zero. */
  method ReadDigits(t: string, start: nat) returns (ok: bool, b256: array<nat>, p: nat)
    requires start <= |t| && forall i :: 0 <= i < start ==> t[i] == '1'
    ensures fresh(b256) && start <= p <= |t| && Digits(256, b256[..]) && InAlphabet(t[..p])
    ensures ok ==> (p == |t| || IsSpace(t[p])) && Num(256, b256[..]) == Num(58, DigitsOf(t[start..p]))
    ensures !ok ==> p < |t| && !IsSpace(t[p]) && Digit(t[p]).None?
    ensures forall i :: 0 <= i < p ==> !IsSpace(t[i])
  {
    b256 := new nat[Size256(|t| - start)](_ => 0);
    AllZero(256, b256[..]);
    p := start;
    assert t[start..p] == [] && Num(58, DigitsOf([])) == 0;
    assert Reading(t, start, p, Num(256, b256[..]));
    while p < |t| && !IsSpace(t[p])
      invariant start <= p <= |t| && Digits(256, b256[..]) && Reading(t, start, p, Num(256, b256[..]))
    {
      hide Digit, Num, Pow, Reading;
      var d := Digit(t[p]);
      if d.None? {
        Read(t, start, p, Num(256, b256[..]));
        return false, b256, p;
      }
      ghost var v := ReadStep(t, start, p, Num(256, b256[..]));
      Append(b256, 256, 58, d.value, v);
      p := p + 1;
    }
    ok := true;
  }

  /** The characters up to `p` are digits, and from `start` on they make the number `v`. */
  ghost predicate Reading(t: string, start: nat, p: nat, v: nat)
    requires start <= p <= |t|
  {
    && InAlphabet(t[..p]) && (forall i :: 0 <= i < p ==> !IsSpace(t[i]))
    && InAlphabet(t[start..p]) && v == Num(58, DigitsOf(t[start..p]))
  }

  lemma Read(t: string, start: nat, p: nat, v: nat)
    requires start <= p <= |t| && Reading(t, start, p, v)
    ensures InAlphabet(t[..p]) && forall i :: 0 <= i < p ==> !IsSpace(t[i])
  {
  }

  lemma ReadStep(t: string, start: nat, p: nat, v: nat) returns (v': nat)
    requires start <= p < |t| && Reading(t, start, p, v) && !IsSpace(t[p]) && Digit(t[p]).Some?
    ensures v' == v * 58 + Digit(t[p]).value < Pow(256, Size256(|t| - start)) && Reading(t, start, p + 1, v')
  {
    hide Digit, Pow, Num;
    NextDigit(t, start, p);
    DecodeRoom(t, start, p + 1);
    v' := Num(58, DigitsOf(t[start..p + 1]));
  }

  lemma NextDigit(t: string, start: nat, p: nat)
    requires start <= p < |t| && InAlphabet(t[..p]) && Digit(t[p]).Some?
    ensures InAlphabet(t[..p + 1]) && InAlphabet(t[start..p]) && InAlphabet(t[start..p + 1])
    ensures Num(58, DigitsOf(t[start..p + 1])) == Num(58, DigitsOf(t[start..p])) * 58 + Digit(t[p]).value
  {
    hide Digit;
    var a, b, c := t[start..p], t[start..p + 1], t[..p + 1];
    forall i | 0 <= i < |a| ensures Digit(a[i]).Some? { assert a[i] == t[..p][start + i]; }
    assert b == a + [t[p]] && c == t[..p] + [t[p]];
    assert DigitsOf(b)[..|b| - 1] == DigitsOf(a);
  }

  lemma DigitsBelow(s: string)
    requires InAlphabet(s)
    ensures Digits(58, DigitsOf(s))
  {
    forall i | 0 <= i < |s| ensures Digit(s[i]).value < 58 { AlphaDigit(s[i]); }
  }

  lemma DecodeRoom(t: string, start: nat, p: nat)
    requires start <= p <= |t| && InAlphabet(t[start..p])
    ensures Num(58, DigitsOf(t[start..p])) < Pow(256, Size256(|t| - start))
  {
    DigitsBelow(t[start..p]);
    NumBound(58, DigitsOf(t[start..p]));
    PowMono(58, p - start, |t| - start);
    DecodeFits(|t| - start);
  }

  /** The bytes put together from the leading ones and the buffer stand for the whole text. */
  lemma Result(core: string, zeroes: nat, buf: seq<nat>)
    requires zeroes <= |core| && InAlphabet(core) && (forall i :: 0 <= i < zeroes ==> core[i] == '1')
    requires zeroes == |core| || core[zeroes] != '1'
    requires Digits(256, buf) && InAlphabet(core[zeroes..]) && Num(256, buf) == Num(58, DigitsOf(core[zeroes..]))
    ensures Stands(Padded(zeroes, buf[Zeros(buf)..]), core)
  {
    DigitsBelow(core);
    hide Digit, Alpha, Num, Zeros, Padded, DigitsOf;
    var rest := DigitsOf(core[zeroes..]);
    SplitDigits(core, zeroes);
    PaddedNumber(58, zeroes, rest);
    StripNum(256, buf);
    PaddedNumber(256, zeroes, Strip(buf));
    PaddedDigits(256, zeroes, Strip(buf));
  }

  /** Leading ones are zeros, and what follows them does not begin with one. */
  lemma SplitDigits(core: string, zeroes: nat)
    requires zeroes <= |core| && InAlphabet(core) && InAlphabet(core[zeroes..])
    requires (forall i :: 0 <= i < zeroes ==> core[i] == '1') && (zeroes == |core| || core[zeroes] != '1')
    ensures var rest := DigitsOf(core[zeroes..]);
            DigitsOf(core) == Padded(zeroes, rest) && (rest == [] || rest[0] != 0)
  {
    assert Digit('1') == Some(0);
    if zeroes < |core| { AlphaDigit(core[zeroes]); }
    hide Digit, Alpha;
  }

  lemma PaddedDigits(b: nat, z: nat, s: seq<nat>)
    requires b > 0 && Digits(b, s)
    ensures Digits(b, Padded(z, s))
  {
  }

  // ----- Round trips -----

  /** Decoding undoes encoding, for every byte string. */
  method DecodeEncode(bytes: seq<nat>) returns (r: Option<seq<nat>>)
    requires Digits(256, bytes)
    ensures r == Some(bytes)
  {
    var str := EncodeBase58(bytes);
    AlphabetIsCore(str);
    r := DecodeBase58(str);
    SameNumberUnique(bytes, DigitsOf(str), r.value, DigitsOf(str));
  }

  /** Encoding undoes decoding, for every string over the alphabet. */
  method EncodeDecode(str: string) returns (r: string)
    requires InAlphabet(str)
    ensures r == str
  {
    AlphabetIsCore(str);
    var bytes := DecodeBase58(str);
    r := EncodeBase58(bytes.value);
    SameNumberUnique(bytes.value, DigitsOf(str), bytes.value, DigitsOf(r));
    SameDigits(str, r);
  }

  lemma AlphabetIsCore(s: string)
    requires InAlphabet(s)
    ensures Core(s) == s && WellFormed(s) && '\0' !in s
  {
    forall i | 0 <= i < |s| ensures !IsSpace(s[i]) && s[i] != '\0' { AlphaDigit(s[i]); }
    SkipIs(s, 0);
    assert s[0..] == s;
    RunIs(s, |s|);
  }

  lemma SameDigits(s: string, t: string)
    requires InAlphabet(s) && InAlphabet(t) && DigitsOf(s) == DigitsOf(t)
    ensures s == t
  {
    forall i | 0 <= i < |s| ensures s[i] == t[i] {
      AlphaDigit(s[i]);
      AlphaDigit(t[i]);
      assert DigitsOf(s)[i] == DigitsOf(t)[i];
    }
  }
}
