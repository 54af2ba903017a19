/** Cashaddr strings: encoding, and decoding with its checks on case, separator and checksum. */
module CashAddrText {
  import opened Basics
  import opened CashAddr

  // ----- The character set -----

  /** The character of a value; the last one stands for 31. */
  function Chr(v: bv8): (c: char) {
    if v < 16 then ChrLow(v) else ChrHigh(v)
  }

  function ChrLow(v: bv8): (c: char) {
    if v == 0 then 'q' else if v == 1 then 'p' else if v == 2 then 'z' else if v == 3 then 'r'
    else if v == 4 then 'y' else if v == 5 then '9' else if v == 6 then 'x' else if v == 7 then '8'
    else if v == 8 then 'g' else if v == 9 then 'f' else if v == 10 then '2' else if v == 11 then 't'
    else if v == 12 then 'v' else if v == 13 then 'd' else if v == 14 then 'w' else '0'
  }

  function ChrHigh(v: bv8): (c: char) {
    if v == 16 then 's' else if v == 17 then '3' else if v == 18 then 'j' else if v == 19 then 'n'
    else if v == 20 then '5' else if v == 21 then '4' else if v == 22 then 'k' else if v == 23 then 'h'
    else if v == 24 then 'c' else if v == 25 then 'e' else if v == 26 then '6' else if v == 27 then 'm'
    else if v == 28 then 'u' else if v == 29 then 'a' else if v == 30 then '7' else 'l'
  }

  /** The value of a character, in either case. */
  function Rev(c: char): (v: Option<bv8>) {
    if RevLow(c).Some? then RevLow(c) else RevHigh(c)
  }

  function RevLow(c: char): (v: Option<bv8>) {
    if c == 'q' || c == 'Q' then Some(0) else if c == 'p' || c == 'P' then Some(1)
    else if c == 'z' || c == 'Z' then Some(2) else if c == 'r' || c == 'R' then Some(3)
    else if c == 'y' || c == 'Y' then Some(4) else if c == '9' then Some(5)
    else if c == 'x' || c == 'X' then Some(6) else if c == '8' then Some(7)
    else if c == 'g' || c == 'G' then Some(8) else if c == 'f' || c == 'F' then Some(9)
    else if c == '2' then Some(10) else if c == 't' || c == 'T' then Some(11)
    else if c == 'v' || c == 'V' then Some(12) else if c == 'd' || c == 'D' then Some(13)
    else if c == 'w' || c == 'W' then Some(14) else if c == '0' then Some(15)
    else None
  }

  function RevHigh(c: char): (v: Option<bv8>) {
    if c == 's' || c == 'S' then Some(16) else if c == '3' then Some(17)
    else if c == 'j' || c == 'J' then Some(18) else if c == 'n' || c == 'N' then Some(19)
    else if c == '5' then Some(20) else if c == '4' then Some(21)
    else if c == 'k' || c == 'K' then Some(22) else if c == 'h' || c == 'H' then Some(23)
    else if c == 'c' || c == 'C' then Some(24) else if c == 'e' || c == 'E' then Some(25)
    else if c == '6' then Some(26) else if c == 'm' || c == 'M' then Some(27)
    else if c == 'u' || c == 'U' then Some(28) else if c == 'a' || c == 'A' then Some(29)
    else if c == '7' then Some(30) else if c == 'l' || c == 'L' then Some(31)
    else None
  }

  predicate IsLower(c: char) {
    'a' <= c <= 'z'
  }

  predicate IsUpper(c: char) {
    'A' <= c <= 'Z'
  }

  predicate IsDigit(c: char) {
    '0' <= c <= '9'
  }

  lemma RevChr(v: bv8)
    requires v < 32
    ensures Rev(Chr(v)) == Some(v) && (IsLower(Chr(v)) || IsDigit(Chr(v)))
  {
    hide ChrLow, ChrHigh, RevLow, RevHigh;
    if v < 16 { RevChrLow(v); } else { RevChrHigh(v); OnlyHigh(v); }
  }

  lemma RevChrLow(v: bv8)
    requires v < 16
    ensures RevLow(ChrLow(v)) == Some(v) && (IsLower(ChrLow(v)) || IsDigit(ChrLow(v)))
  {
  }

  lemma RevChrHigh(v: bv8)
    requires 16 <= v < 32
    ensures RevHigh(ChrHigh(v)) == Some(v) && (IsLower(ChrHigh(v)) || IsDigit(ChrHigh(v)))
  {
  }

  lemma OnlyHigh(v: bv8)
    ensures RevLow(ChrHigh(v)) == None
  {
  }

  // ----- Checksums of strings -----

  function LowFive(c: char): (r: bv8) {
    (c as int % 32) as bv8
  }

  /** The prefix as the checksum sees it. */
  function Expanded(prefix: string): (r: seq<bv8>)
    ensures |r| == |prefix| + 1
  {
    seq(|prefix|, i requires 0 <= i < |prefix| => LowFive(prefix[i])) + [0]
  }

  method ExpandPrefix(prefix: string) returns (ret: seq<bv8>)
    ensures ret == Expanded(prefix)
  {
    ret := seq(|prefix| + 1, i => 0);
    for i := 0 to |prefix|
      invariant |ret| == |prefix| + 1 && ret[|prefix|] == 0
      invariant forall k :: 0 <= k < i ==> ret[k] == LowFive(prefix[k])
    {
      ret := ret[i := LowFive(prefix[i])];
    }
    ret := ret[|prefix| := 0];
  }

  predicate Verifies(prefix: string, values: seq<bv8>) {
    Poly(1, Expanded(prefix) + values) == 1
  }

  method VerifyChecksum(prefix: string, values: seq<bv8>) returns (ok: bool)
    ensures ok <==> Verifies(prefix, values)
  {
    var expanded := ExpandPrefix(prefix);
    var c := PolyMod(expanded + values);
    ok := c == 1;
  }

  method CreateChecksum(prefix: string, values: seq<bv8>) returns (ret: seq<bv8>)
    ensures ret == Checksum(Expanded(prefix) + values)
  {
    var expanded := ExpandPrefix(prefix);
    var enc := expanded + values + ZEROS;
    var mod := PolyMod(enc);
    mod := Xor(mod, 1);
    ret := [];
    hide Xor, Group, Poly;
    for i := 0 to 8
      invariant |ret| == i && forall k :: 0 <= k < i ==> ret[k] == Group(mod, k)
    {
      ret := ret + [Group(mod, i)];
    }
  }

  // ----- Encoding -----

  function Chars(values: seq<bv8>): (r: string) {
    seq(|values|, i requires 0 <= i < |values| => Chr(values[i]))
  }

  function Encoded(prefix: string, values: seq<bv8>): (r: string) {
    prefix + ":" + Chars(values + Checksum(Expanded(prefix) + values))
  }

  /** Encodes 5-bit values; the assertion on the values fails for any other. */
  method Encode(prefix: string, values: seq<bv8>) returns (ok: bool, ret: string)
    ensures ok <==> FiveBits(values)
    ensures ok ==> ret == Encoded(prefix, values)
  {
    var checksum := CreateChecksum(prefix, values);
    ChecksumVerifies(Expanded(prefix) + values);
    var combined := values + checksum;
    assert forall i :: |values| <= i < |combined| ==> combined[i] == checksum[i - |values|] < 32;
    hide Chr, Checksum, Poly;
    ret := prefix + ":";
    for i := 0 to |combined|
      invariant FiveBits(combined[..i]) && ret == prefix + ":" + Chars(combined[..i])
    {
      if combined[i] >= 32 {
        assert combined[i] == values[i];
        return false, "";
      }
      assert combined[..i + 1] == combined[..i] + [combined[i]];
      ret := ret + [Chr(combined[i])];
    }
    assert combined[..|combined|] == combined;
    assert forall i :: 0 <= i < |values| ==> values[i] == combined[i];
    return true, ret;
  }

  // ----- Decoding -----

  /** The answer of the decoder.  With a checksum that verifies on fewer than eight values, the code takes a range
      that ends before it starts. */
  datatype Decoded = Failed | Undefined | Ok(prefix: string, values: seq<bv8>)

  datatype Scan = Bad | Scanned(lower: bool, upper: bool, hasNumber: bool, prefixSize: nat)

  function ScanStep(st: Scan, c: char, i: nat): (r: Scan) {
    match st
    case Bad => Bad
    case Scanned(lower, upper, hasNumber, prefixSize) =>
      if IsLower(c) then Scanned(true, upper, hasNumber, prefixSize)
      else if IsUpper(c) then Scanned(lower, true, hasNumber, prefixSize)
      else if IsDigit(c) then Scanned(lower, upper, true, prefixSize)
      else if c == ':' && !hasNumber && i != 0 && prefixSize == 0 then Scanned(lower, upper, hasNumber, i)
      else Bad
  }

  function ScanAll(str: string): (r: Scan) {
    if str == [] then Scanned(false, false, false, 0)
    else ScanStep(ScanAll(str[..|str| - 1]), str[|str| - 1], |str| - 1)
  }

  /** Lower case; for letters this is setting bit 5 of the code. */
  function LowerCase(c: char): (r: char) {
    if IsUpper(c) then (c as int + 32) as char else c
  }

  function Lowered(s: string): (r: string) {
    seq(|s|, i requires 0 <= i < |s| => LowerCase(s[i]))
  }

  predicate AllValues(s: string) {
    forall i :: 0 <= i < |s| ==> Rev(s[i]).Some?
  }

  function ValuesOf(s: string): (r: seq<bv8>)
    requires AllValues(s)
    ensures |r| == |s|
  {
    seq(|s|, i requires 0 <= i < |s| => Rev(s[i]).value)
  }

  lemma {:induction false} ScanSize(str: string)
    ensures var st := ScanAll(str);
            st.Scanned? && st.prefixSize > 0 ==> st.prefixSize < |str| && str[st.prefixSize] == ':'
    ensures var st := ScanAll(str);
            st.Scanned? && (st.prefixSize > 0 || !st.hasNumber) ==>
            forall i :: 0 <= i < (if st.prefixSize > 0 then st.prefixSize else |str|) ==> IsLower(str[i]) || IsUpper(str[i])
  {
    if str != [] {
      var n := |str| - 1;
      ScanSize(str[..n]);
    }
  }

  /** The checksum part of decoding: prefix and payload characters. */
  function DecodedParts(prefix: string, payload: string): (r: Decoded) {
    if !AllValues(payload) || !Verifies(prefix, ValuesOf(payload)) then Failed
    else if |payload| < 8 then Undefined
    else Ok(prefix, ValuesOf(payload)[..|payload| - 8])
  }

  function DecodedAs(str: string, defaultPrefix: string): (r: Decoded) {
    var st := ScanAll(str);
    if st.Bad? || (st.upper && st.lower) then Failed
    else if st.prefixSize == 0 then DecodedParts(defaultPrefix, str)
    else
      ScanSize(str);
      DecodedParts(Lowered(str[..st.prefixSize]), str[st.prefixSize + 1..])
  }

  method Decode(str: string, defaultPrefix: string) returns (r: Decoded)
    ensures r == DecodedAs(str, defaultPrefix)
  {
    hide DecodedParts;
    var lower, upper, hasNumber, prefixSize := false, false, false, 0;
    for i := 0 to |str|
      invariant ScanAll(str[..i]) == Scanned(lower, upper, hasNumber, prefixSize)
    {
      assert str[..i + 1][..i] == str[..i];
      var c := str[i];
      if IsLower(c) {
        lower := true;
      } else if IsUpper(c) {
        upper := true;
      } else if IsDigit(c) {
        hasNumber := true;
      } else if c == ':' {
        if hasNumber || i == 0 || prefixSize != 0 {
          BadStays(str, i + 1);
          return Failed;
        }
        prefixSize := i;
      } else {
        BadStays(str, i + 1);
        return Failed;
      }
    }
    assert str[..|str|] == str;
    if upper && lower {
      return Failed;
    }
    var prefix := defaultPrefix;
    if prefixSize != 0 {
      ScanSize(str);
      prefix := [];
      for i := 0 to prefixSize
        invariant prefix == Lowered(str[..i])
      {
        assert str[..i + 1] == str[..i] + [str[i]];
        prefix := prefix + [LowerCase(str[i])];
      }
      prefixSize := prefixSize + 1;
    }
    r := DecodeValues(prefix, str[prefixSize..]);
  }

  lemma {:induction false} BadStays(str: string, i: nat)
    requires i <= |str| && ScanAll(str[..i]).Bad?
    ensures ScanAll(str).Bad?
    decreases |str| - i
  {
    if i < |str| {
      assert str[..i + 1][..i] == str[..i];
      BadStays(str, i + 1);
    } else {
      assert str[..i] == str;
    }
  }

  method DecodeValues(prefix: string, payload: string) returns (r: Decoded)
    ensures r == DecodedParts(prefix, payload)
  {
    hide Rev, Poly;
    var values: seq<bv8> := [];
    for i := 0 to |payload|
      invariant |values| == i && forall k :: 0 <= k < i ==> Rev(payload[k]) == Some(values[k])
    {
      var v := Rev(payload[i]);
      if v.None? {
        return Failed;
      }
      values := values + [v.value];
    }
    assert values == ValuesOf(payload);
    var ok := VerifyChecksum(prefix, values);
    if !ok {
      return Failed;
    }
    if |values| < 8 {
      return Undefined;
    }
    return Ok(prefix, values[..|values| - 8]);
  }

  // ----- The round trip -----

  predicate LowerPrefix(prefix: string) {
    prefix != [] && forall i :: 0 <= i < |prefix| ==> IsLower(prefix[i])
  }

  lemma {:induction false} ScanEncoded(prefix: string, data: seq<bv8>, n: nat)
    requires LowerPrefix(prefix) && FiveBits(data) && n <= |prefix| + 1 + |data|
    ensures var st := ScanAll((prefix + ":" + Chars(data))[..n]);
            if n <= |prefix| then st == Scanned(n > 0, false, false, 0)
            else st.Scanned? && st.lower && !st.upper && st.prefixSize == |prefix|
  {
    hide Chr;
    if n > 0 {
      var str := prefix + ":" + Chars(data);
      ScanEncoded(prefix, data, n - 1);
      assert str[..n][..n - 1] == str[..n - 1];
      if n > |prefix| + 1 {
        var v := data[n - |prefix| - 2];
        assert str[n - 1] == Chr(v);
        RevChr(v);
      }
    }
  }

  lemma CharsBack(data: seq<bv8>)
    requires FiveBits(data)
    ensures AllValues(Chars(data)) && ValuesOf(Chars(data)) == data
  {
    hide Chr, Rev;
    forall i | 0 <= i < |data| ensures Rev(Chars(data)[i]) == Some(data[i]) {
      RevChr(data[i]);
    }
  }

  /** Decoding gives back what was encoded, whatever the default prefix. */
  lemma DecodeEncode(prefix: string, values: seq<bv8>, defaultPrefix: string)
    requires LowerPrefix(prefix) && FiveBits(values)
    ensures DecodedAs(Encoded(prefix, values), defaultPrefix) == Ok(prefix, values)
  {
    var check := Checksum(Expanded(prefix) + values);
    ChecksumVerifies(Expanded(prefix) + values);
    hide Checksum, Poly, Chr, Rev;
    var data, str := values + check, Encoded(prefix, values);
    assert str == prefix + ":" + Chars(data);
    ScanEncoded(prefix, data, |str|);
    assert str[..|str|] == str;
    assert str[..|prefix|] == prefix && str[|prefix| + 1..] == Chars(data);
    assert Lowered(prefix) == prefix;
    CharsBack(data);
    assert Expanded(prefix) + data == Expanded(prefix) + values + check;
    assert data[..|data| - 8] == values;
  }

  /** The value of a character stands for that character in lower case. */
  lemma ChrRev(c: char)
    requires Rev(c).Some?
    ensures Rev(c).value < 32 && Chr(Rev(c).value) == LowerCase(c)
  {
    hide ChrLow, ChrHigh, RevLow, RevHigh, LowerCase;
    if RevLow(c).Some? { ChrRevLow(c); } else { ChrRevHigh(c); }
  }

  lemma ChrRevLow(c: char)
    requires RevLow(c).Some?
    ensures RevLow(c).value < 16 && ChrLow(RevLow(c).value) == LowerCase(c)
  {
  }

  lemma ChrRevHigh(c: char)
    requires RevHigh(c).Some?
    ensures 16 <= RevHigh(c).value < 32 && ChrHigh(RevHigh(c).value) == LowerCase(c)
  {
  }

  lemma ValuesBack(s: string)
    requires AllValues(s)
    ensures FiveBits(ValuesOf(s)) && Chars(ValuesOf(s)) == Lowered(s)
  {
    hide Chr, Rev, LowerCase;
    forall i | 0 <= i < |s| ensures ValuesOf(s)[i] < 32 && Chr(ValuesOf(s)[i]) == LowerCase(s[i]) {
      ChrRev(s[i]);
    }
  }

  /** Only the checksum of the values verifies behind them. */
  lemma OneChecksum(prefix: string, values: seq<bv8>, check: seq<bv8>)
    requires |check| == 8 && FiveBits(values + check) && Verifies(prefix, values + check)
    ensures check == Checksum(Expanded(prefix) + values)
  {
    var right := Checksum(Expanded(prefix) + values);
    ChecksumVerifies(Expanded(prefix) + values);
    hide Checksum, Poly;
    var u, v := values + check, values + right;
    assert Expanded(prefix) + v == Expanded(prefix) + values + right;
    assert forall i :: 0 <= i < |values| ==> values[i] == u[i];
    assert u[..|values|] == values == v[..|values|] && u[|values| + 8..] == [] == v[|values| + 8..];
    if check != right {
      assert u[|values|..] == check && v[|values|..] == right;
      BurstRejected(prefix, u, v, |values|, 8);
    }
  }

  lemma PartsEncoded(prefix: string, payload: string)
    requires DecodedParts(prefix, payload).Ok?
    ensures var r := DecodedParts(prefix, payload);
            r.prefix == prefix && FiveBits(r.values) && Encoded(prefix, r.values) == prefix + ":" + Lowered(payload)
  {
    hide Checksum, Poly, Chr, Rev, Lowered;
    var data, values := ValuesOf(payload), DecodedParts(prefix, payload).values;
    ValuesBack(payload);
    var check := data[|data| - 8..];
    assert values + check == data;
    assert forall i :: 0 <= i < |values| ==> values[i] == data[i];
    OneChecksum(prefix, values, check);
  }

  /** Whatever the decoder accepts is, in lower case and with its prefix written out, what the encoder produces. */
  lemma OnlyEncodingsDecode(str: string, defaultPrefix: string)
    requires DecodedAs(str, defaultPrefix).Ok?
    ensures var r := DecodedAs(str, defaultPrefix);
            && FiveBits(r.values)
            && Encoded(r.prefix, r.values) ==
               (if ScanAll(str).prefixSize == 0 then defaultPrefix + ":" else "") + Lowered(str)
  {
    hide DecodedParts, Encoded, FiveBits;
    var size := ScanAll(str).prefixSize;
    ScanSize(str);
    if size == 0 {
      PartsEncoded(defaultPrefix, str);
    } else {
      var payload := str[size + 1..];
      PartsEncoded(Lowered(str[..size]), payload);
      assert Lowered(str) == Lowered(str[..size]) + ":" + Lowered(payload);
    }
  }

  /** Of two payloads of the same length under one prefix that differ within eight consecutive characters, at most
      one verifies. */
  lemma BurstRejected(prefix: string, u: seq<bv8>, v: seq<bv8>, i: nat, n: nat)
    requires |u| == |v| && FiveBits(u) && FiveBits(v) && u != v
    requires n <= 8 && i + n <= |u| && u[..i] == v[..i] && u[i + n..] == v[i + n..]
    ensures !(Verifies(prefix, u) && Verifies(prefix, v))
  {
    hide Poly;
    var e := Expanded(prefix);
    PolyAppend(1, e, u);
    PolyAppend(1, e, v);
    BurstFrom(Poly(1, e), u, v, i, n);
  }
}
