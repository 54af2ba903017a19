/** Cashaddr payloads too short to hold a checksum: the decoder cuts eight values off without asking whether there
    are eight. */
module CashAddrShort {
  import opened CashAddr
  import opened CashAddrText

  /** Under this prefix no payload of fewer than eight characters verifies. */
  ghost predicate SafePrefix(prefix: string) {
    forall k :: 0 <= k < 8 ==> SafeAt(Poly(1, Expanded(prefix)), k)
  }

  /** No `k` values close the state. */
  ghost predicate SafeAt(c: bv40, k: nat)
    requires k < 8
  {
    Wanting(c, k) > Cap(k)
  }

  lemma ShortPayload(prefix: string, payload: string)
    ensures DecodedParts(prefix, payload) == Undefined <==>
            |payload| < 8 && AllValues(payload) && Closes(Poly(1, Expanded(prefix)), ValuesOf(payload))
  {
    if AllValues(payload) {
      ValuesBack(payload);
      PolyAppend(1, Expanded(prefix), ValuesOf(payload));
    }
  }

  /** An unsafe prefix has a payload, in lower case, for which the decoder takes a range that ends before it
      starts. */
  lemma FindShort(prefix: string) returns (w: seq<bv8>)
    requires !SafePrefix(prefix)
    ensures FiveBits(w) && DecodedParts(prefix, Chars(w)) == Undefined
  {
    var c := Poly(1, Expanded(prefix));
    hide DecodedParts, Poly, Cap, Wanting, Expanded, AllValues, Chr, Rev;
    var k :| 0 <= k < 8 && !SafeAt(c, k);
    w := Closing(c, k);
    CharsBack(w);
    ShortPayload(prefix, Chars(w));
  }

  lemma ShortIsUnsafe(prefix: string, payload: string)
    requires DecodedParts(prefix, payload) == Undefined
    ensures !SafePrefix(prefix)
  {
    var c := Poly(1, Expanded(prefix));
    ShortPayload(prefix, payload);
    hide DecodedParts, Poly, Cap, Wanting, Closes, Expanded, AllValues, Rev;
    ClosesSmall(c, ValuesOf(payload));
    assert !SafeAt(c, |payload|);
  }

  lemma {:induction false} ScanPrefix(prefix: string, payload: string, n: nat)
    requires LowerPrefix(prefix) && n <= |prefix| + 1 + |payload|
    ensures var st := ScanAll((prefix + ":" + payload)[..n]);
            if n <= |prefix| then st == Scanned(n > 0, false, false, 0)
            else st.Scanned? ==> st.prefixSize == |prefix|
  {
    if n > 0 {
      var str := prefix + ":" + payload;
      ScanPrefix(prefix, payload, n - 1);
      assert str[..n][..n - 1] == str[..n - 1];
    }
  }

  /** Texts with a written prefix always decode to a defined answer exactly if the prefix is safe. */
  lemma DecodeIsDefined(prefix: string, defaultPrefix: string)
    requires LowerPrefix(prefix)
    ensures (forall payload :: DecodedAs(prefix + ":" + payload, defaultPrefix) != Undefined) <==> SafePrefix(prefix)
  {
    forall payload | DecodedAs(prefix + ":" + payload, defaultPrefix) == Undefined ensures !SafePrefix(prefix) {
      SplitPrefix(prefix, payload, defaultPrefix);
      ShortIsUnsafe(prefix, payload);
    }
    hide DecodedParts, SafePrefix, DecodedAs;
    if !SafePrefix(prefix) {
      var w := FindShort(prefix);
      JoinPrefix(prefix, w, defaultPrefix);
      assert DecodedAs(prefix + ":" + Chars(w), defaultPrefix) == Undefined;
    }
  }

  lemma SplitPrefix(prefix: string, payload: string, defaultPrefix: string)
    requires LowerPrefix(prefix) && DecodedAs(prefix + ":" + payload, defaultPrefix) != Failed
    ensures DecodedAs(prefix + ":" + payload, defaultPrefix) == DecodedParts(prefix, payload)
  {
    hide DecodedParts;
    var str := prefix + ":" + payload;
    ScanPrefix(prefix, payload, |str|);
    assert str[..|str|] == str && str[..|prefix|] == prefix && str[|prefix| + 1..] == payload;
    assert Lowered(prefix) == prefix;
  }

  lemma JoinPrefix(prefix: string, w: seq<bv8>, defaultPrefix: string)
    requires LowerPrefix(prefix) && FiveBits(w)
    ensures DecodedAs(prefix + ":" + Chars(w), defaultPrefix) == DecodedParts(prefix, Chars(w))
  {
    hide DecodedParts, Chr;
    var str := prefix + ":" + Chars(w);
    ScanEncoded(prefix, w, |str|);
    assert str[..|str|] == str && str[..|prefix|] == prefix && str[|prefix| + 1..] == Chars(w);
    assert Lowered(prefix) == prefix;
  }

  /** Texts without a prefix always decode to a defined answer exactly if the default prefix is safe. */
  lemma DecodeBareIsDefined(defaultPrefix: string)
    ensures (forall str :: ':' !in str ==> DecodedAs(str, defaultPrefix) != Undefined) <==> SafePrefix(defaultPrefix)
  {
    forall str: string | ':' !in str && DecodedAs(str, defaultPrefix) == Undefined ensures !SafePrefix(defaultPrefix) {
      ScanSize(str);
      ShortIsUnsafe(defaultPrefix, str);
    }
    hide DecodedParts, SafePrefix;
    if !SafePrefix(defaultPrefix) {
      var w := FindShort(defaultPrefix);
      ScanBare(w, |w|);
      assert Chars(w)[..|w|] == Chars(w);
      assert ':' !in Chars(w);
    }
  }

  lemma {:induction false} ScanBare(w: seq<bv8>, n: nat)
    requires FiveBits(w) && n <= |w|
    ensures var st := ScanAll(Chars(w)[..n]); st.Scanned? && !st.upper && st.prefixSize == 0
    ensures ':' !in Chars(w)[..n]
  {
    hide Chr;
    if n > 0 {
      ScanBare(w, n - 1);
      assert Chars(w)[..n] == Chars(w)[..n - 1] + [Chr(w[n - 1])];
      RevChr(w[n - 1]);
    }
  }

  /** The state after an input, computed from the front. */
  function Fold(c: bv40, v: seq<bv8>): (r: bv40)
    decreases |v|
  {
    if v == [] then c else Fold(Step(c, v[0]), v[1..])
  }

  lemma {:induction false} FoldIsPoly(c: bv40, v: seq<bv8>)
    ensures Fold(c, v) == Poly(c, v)
    decreases |v|
  {
    hide Step;
    if v != [] {
      FoldIsPoly(Step(c, v[0]), v[1..]);
      assert v == v[..1] + v[1..];
      assert v[..1][..0] == [];
      PolyAppend(c, v[..1], v[1..]);
    }
  }

  /** Decides from the state whether no payload of `k` to seven values verifies. */
  predicate SafeFrom(c: bv40, k: nat)
    decreases 8 - k
  {
    k < 8 ==> Xor(c, 1) > Cap(k) && SafeFrom(Step(c, 0), k + 1)
  }

  lemma {:induction false} SafeFromMeans(c: bv40, k: nat)
    requires k <= 8
    ensures SafeFrom(Poly(c, Blank(k)), k) <==> forall j :: k <= j < 8 ==> SafeAt(c, j)
    decreases 8 - k
  {
    hide Step, Xor, Cap, SafeAt, Poly, Blank;
    if k < 8 {
      SafeFromMeans(c, k + 1);
      NextBlank(c, k);
      SafeNow(c, k);
      OneMore(Poly(c, Blank(k)), k);
    }
  }

  lemma NextBlank(c: bv40, k: nat)
    ensures Poly(c, Blank(k + 1)) == Step(Poly(c, Blank(k)), 0)
  {
    hide Step;
    assert Blank(k + 1)[..k] == Blank(k);
  }

  lemma SafeNow(c: bv40, k: nat)
    requires k < 8
    ensures SafeAt(c, k) <==> Xor(Poly(c, Blank(k)), 1) > Cap(k)
  {
    hide Poly, Cap, Xor, Blank;
  }

  lemma OneMore(c: bv40, k: nat)
    requires k < 8
    ensures SafeFrom(c, k) <==> Xor(c, 1) > Cap(k) && SafeFrom(Step(c, 0), k + 1)
  {
    hide Cap, Xor, Step;
  }

  lemma Onward(c: bv40, d: bv40, k: nat)
    requires k < 8 && Step(c, 0) == d && Xor(c, 1) > Cap(k) && SafeFrom(d, k + 1)
    ensures SafeFrom(c, k)
  {
    hide Cap, Xor, Step;
  }

  lemma Decided(prefix: string, v: seq<bv8>)
    requires Expanded(prefix) == v
    ensures SafePrefix(prefix) <==> SafeFrom(Fold(1, v), 0)
  {
    hide Step, Xor, Cap, SafeFrom;
    FoldIsPoly(1, v);
    SafeFromMeans(Poly(1, v), 0);
    assert Blank(0) == [];
  }

  /** The prefixes of all networks are safe. */
  lemma NetworkPrefixesAreSafe()
    ensures SafePrefix("nexa") && SafePrefix("nexatest") && SafePrefix("nexareg")
    ensures SafePrefix("stormtest") && SafePrefix("bitcoincash")
  {
    hide SafePrefix;
    NexaIsSafe();
    NexaTestIsSafe();
    NexaRegIsSafe();
    StormTestIsSafe();
    BitcoinCashIsSafe();
  }

  lemma NexaIsSafe()
    ensures SafePrefix("nexa")
  {
    NexaState();
    NexaFar();
    hide *;
    var v: seq<bv8> := [14, 5, 24, 1, 0];
    NexaExpands();
    Decided("nexa", v);
  }

  lemma NexaState()
    ensures Fold(1, [14, 5, 24, 1, 0]) == 0x00_02e2_e020
  {
  }

  lemma NexaFar()
    ensures SafeFrom(0x00_02e2_e020, 0)
  {
    Onward(0xeb_21ec_c46f, 0xbf_9093_b69d, 7);
    Onward(0x7a_bba6_4c14, 0xeb_21ec_c46f, 6);
    Onward(0xa4_be55_d0dd, 0x7a_bba6_4c14, 5);
    Onward(0xeb_f89a_f75d, 0xa4_be55_d0dd, 4);
    Onward(0xe9_82ac_8e61, 0xeb_f89a_f75d, 3);
    Onward(0x0b_8b80_8000, 0xe9_82ac_8e61, 2);
    Onward(0x00_5c5c_0400, 0x0b_8b80_8000, 1);
    Onward(0x00_02e2_e020, 0x00_5c5c_0400, 0);
  }

  lemma NexaExpands()
    ensures Expanded("nexa") == [14, 5, 24, 1, 0]
  {
  }

  lemma NexaTestIsSafe()
    ensures SafePrefix("nexatest")
  {
    NexaTestState();
    NexaTestFar();
    hide *;
    var v: seq<bv8> := [14, 5, 24, 1, 20, 5, 19, 20, 0];
    NexaTestExpands();
    Decided("nexatest", v);
  }

  lemma NexaTestState()
    ensures Fold(1, [14, 5, 24, 1, 20, 5, 19, 20, 0]) == 0xeb_f9d8_39dd
  {
  }

  lemma NexaTestFar()
    ensures SafeFrom(0xeb_f9d8_39dd, 0)
  {
    Onward(0x60_764a_7802, 0x53_d9bb_512c, 7);
    Onward(0x10_ce09_3f0f, 0x60_764a_7802, 6);
    Onward(0x7d_64d9_63cf, 0x10_ce09_3f0f, 5);
    Onward(0x7e_098f_e129, 0x7d_64d9_63cf, 4);
    Onward(0x4a_46ac_c46f, 0x7e_098f_e129, 3);
    Onward(0x7f_b09c_4c14, 0x4a_46ac_c46f, 2);
    Onward(0xa4_960c_00dd, 0x7f_b09c_4c14, 1);
    Onward(0xeb_f9d8_39dd, 0xa4_960c_00dd, 0);
  }

  lemma NexaTestExpands()
    ensures Expanded("nexatest") == [14, 5, 24, 1, 20, 5, 19, 20, 0]
  {
  }

  lemma NexaRegIsSafe()
    ensures SafePrefix("nexareg")
  {
    NexaRegState();
    NexaRegFar();
    hide *;
    var v: seq<bv8> := [14, 5, 24, 1, 18, 5, 7, 0];
    NexaRegExpands();
    Decided("nexareg", v);
  }

  lemma NexaRegState()
    ensures Fold(1, [14, 5, 24, 1, 18, 5, 7, 0]) == 0xe9_82a5_9a81
  {
  }

  lemma NexaRegFar()
    ensures SafeFrom(0xe9_82a5_9a81, 0)
  {
    Onward(0x67_1ed5_2da1, 0xbe_ca51_e54c, 7);
    Onward(0x0f_ff63_4d1e, 0x67_1ed5_2da1, 6);
    Onward(0xf1_a8bd_cb0f, 0x0f_ff63_4d1e, 5);
    Onward(0x7a_6fec_c46f, 0xf1_a8bd_cb0f, 4);
    Onward(0x7e_31d6_4c14, 0x7a_6fec_c46f, 3);
    Onward(0xa4_9a06_50dd, 0x7e_31d6_4c14, 2);
    Onward(0xeb_f9b8_6b5d, 0xa4_9a06_50dd, 1);
    Onward(0xe9_82a5_9a81, 0xeb_f9b8_6b5d, 0);
  }

  lemma NexaRegExpands()
    ensures Expanded("nexareg") == [14, 5, 24, 1, 18, 5, 7, 0]
  {
  }

  lemma StormTestIsSafe()
    ensures SafePrefix("stormtest")
  {
    StormTestState();
    StormTestFar();
    hide *;
    var v: seq<bv8> := [19, 20, 15, 18, 13, 20, 5, 19, 20, 0];
    StormTestExpands();
    Decided("stormtest", v);
  }

  lemma StormTestState()
    ensures Fold(1, [19, 20, 15, 18, 13, 20, 5, 19, 20, 0]) == 0xba_5db6_0ab7
  {
  }

  lemma StormTestFar()
    ensures SafeFrom(0xba_5db6_0ab7, 0)
  {
    Onward(0xbe_051e_b9ef, 0xcc_971a_7dd7, 7);
    Onward(0x78_1281_dff8, 0xbe_051e_b9ef, 6);
    Onward(0xc6_439b_4ec9, 0x78_1281_dff8, 5);
    Onward(0x4f_84fc_6110, 0xc6_439b_4ec9, 4);
    Onward(0x82_8e5d_fc2b, 0x4f_84fc_6110, 3);
    Onward(0x5e_6f29_3848, 0x82_8e5d_fc2b, 2);
    Onward(0x47_820c_16d7, 0x5e_6f29_3848, 1);
    Onward(0xba_5db6_0ab7, 0x47_820c_16d7, 0);
  }

  lemma StormTestExpands()
    ensures Expanded("stormtest") == [19, 20, 15, 18, 13, 20, 5, 19, 20, 0]
  {
  }

  lemma BitcoinCashIsSafe()
    ensures SafePrefix("bitcoincash")
  {
    BitcoinCashState();
    BitcoinCashFar();
    hide *;
    var v: seq<bv8> := [2, 9, 20, 3, 15, 9, 14, 3, 1, 19, 8, 0];
    BitcoinCashExpands();
    Decided("bitcoincash", v);
  }

  lemma BitcoinCashState()
    ensures Fold(1, [2, 9, 20, 3, 15, 9, 14, 3, 1, 19, 8, 0]) == 0xf6_69cd_6d15
  {
  }

  lemma BitcoinCashFar()
    ensures SafeFrom(0xf6_69cd_6d15, 0)
  {
    Onward(0x18_63fd_18cb, 0xed_3a72_0ee3, 7);
    Onward(0x5a_b844_3f6f, 0x18_63fd_18cb, 6);
    Onward(0x7f_376b_0bcc, 0x5a_b844_3f6f, 5);
    Onward(0x61_113c_fad5, 0x7f_376b_0bcc, 4);
    Onward(0xa8_a494_e118, 0x61_113c_fad5, 3);
    Onward(0xc0_c62b_e73e, 0xa8_a494_e118, 2);
    Onward(0xf7_d177_8e5e, 0xc0_c62b_e73e, 1);
    Onward(0xf6_69cd_6d15, 0xf7_d177_8e5e, 0);
  }

  lemma BitcoinCashExpands()
    ensures Expanded("bitcoincash") == [2, 9, 20, 3, 15, 9, 14, 3, 1, 19, 8, 0]
  {
  }

  /** A text of seven payload characters that verifies. */
  lemma ShortText(defaultPrefix: string)
    ensures DecodedAs("c:qvdy2z3", defaultPrefix) == Undefined
  {
    hide *;
    var w: seq<bv8> := [0, 12, 13, 4, 10, 2, 17];
    assert "c" + ":" + "qvdy2z3" == "c:qvdy2z3";
    ShortChars();
    ShortCloses();
    ShortParts(w);
    assert LowerPrefix("c") by { OneLower(); }
    JoinPrefix("c", w, defaultPrefix);
  }

  lemma OneLower()
    ensures LowerPrefix("c")
  {
  }

  lemma ShortChars()
    ensures Chars([0, 12, 13, 4, 10, 2, 17]) == "qvdy2z3"
  {
  }

  lemma ShortCloses()
    ensures Fold(1, [3, 0, 0, 12, 13, 4, 10, 2, 17]) == 1
  {
  }

  lemma ShortParts(w: seq<bv8>)
    requires w == [0, 12, 13, 4, 10, 2, 17] && Fold(1, [3, 0, 0, 12, 13, 4, 10, 2, 17]) == 1
    ensures FiveBits(w) && DecodedParts("c", Chars(w)) == Undefined
  {
    hide Step, Fold, Poly, Chr, Rev;
    var v: seq<bv8> := [3, 0, 0, 12, 13, 4, 10, 2, 17];
    assert Expanded("c") == [3, 0] && [3, 0] + w == v;
    FoldIsPoly(1, v);
    CharsBack(w);
  }
}
