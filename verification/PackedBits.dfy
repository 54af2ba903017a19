/** Flags packed eight to a byte. */
module PackedBits {

  /** One bit, shifted left `k` times. */
  function Mask(k: nat): bv8 {
    if k == 0 then 1 else Mask(k - 1) << 1
  }

  predicate ByteHas(b: bv8, k: nat) { Mask(k) & b != 0 }
  function ByteSet(b: bv8, k: nat): bv8 { b | Mask(k) }
  function ByteUnset(b: bv8, k: nat): bv8 { b & !Mask(k) }

  lemma MaskValues()
    ensures Mask(0) == 1 && Mask(1) == 2 && Mask(2) == 4 && Mask(3) == 8
    ensures Mask(4) == 16 && Mask(5) == 32 && Mask(6) == 64 && Mask(7) == 128
  {
    assert Mask(1) == Mask(0) << 1;
    assert Mask(2) == Mask(1) << 1;
    assert Mask(3) == Mask(2) << 1;
    assert Mask(4) == Mask(3) << 1;
    assert Mask(5) == Mask(4) << 1;
    assert Mask(6) == Mask(5) << 1;
    assert Mask(7) == Mask(6) << 1;
  }

  lemma ByteSetHas(b: bv8, i: nat, j: nat)
    requires i < 8 && j < 8
    ensures ByteHas(ByteSet(b, i), j) <==> i == j || ByteHas(b, j)
  {
    MaskValues();
  }

  lemma ByteUnsetHas(b: bv8, i: nat, j: nat)
    requires i < 8 && j < 8
    ensures ByteHas(ByteUnset(b, i), j) <==> i != j && ByteHas(b, j)
  {
    MaskValues();
  }

  predicate BitIsSet(mem: seq<bv8>, s: nat)
    requires s / 8 < |mem|
  {
    ByteHas(mem[s / 8], s % 8)
  }

  function BitSet(mem: seq<bv8>, s: nat): (r: seq<bv8>)
    requires s / 8 < |mem|
    ensures |r| == |mem|
  {
    mem[s / 8 := ByteSet(mem[s / 8], s % 8)]
  }

  function BitUnset(mem: seq<bv8>, s: nat): (r: seq<bv8>)
    requires s / 8 < |mem|
    ensures |r| == |mem|
  {
    mem[s / 8 := ByteUnset(mem[s / 8], s % 8)]
  }

  /** Setting or clearing a flag does just that, and touches no other flag. */
  lemma FlagWrites(mem: seq<bv8>, s: nat, t: nat)
    requires s / 8 < |mem| && t / 8 < |mem|
    ensures BitIsSet(BitSet(mem, s), t) <==> t == s || BitIsSet(mem, t)
    ensures BitIsSet(BitUnset(mem, s), t) <==> t != s && BitIsSet(mem, t)
  {
    SameBit(s, t);
    ByteWrites(mem, s / 8, s % 8, t / 8, t % 8);
  }

  lemma SameBit(s: nat, t: nat)
    ensures s == t <==> s / 8 == t / 8 && s % 8 == t % 8
  {
  }

  lemma ByteWrites(mem: seq<bv8>, i: nat, k: nat, j: nat, l: nat)
    requires i < |mem| && j < |mem| && k < 8 && l < 8
    ensures ByteHas(mem[i := ByteSet(mem[i], k)][j], l) <==> (i == j && k == l) || ByteHas(mem[j], l)
    ensures ByteHas(mem[i := ByteUnset(mem[i], k)][j], l) <==> !(i == j && k == l) && ByteHas(mem[j], l)
  {
    if i == j {
      assert mem[i := ByteSet(mem[i], k)][j] == ByteSet(mem[i], k);
      assert mem[i := ByteUnset(mem[i], k)][j] == ByteUnset(mem[i], k);
      ByteSetHas(mem[i], k, l);
      ByteUnsetHas(mem[i], k, l);
    } else {
      assert mem[i := ByteSet(mem[i], k)][j] == mem[j];
      assert mem[i := ByteUnset(mem[i], k)][j] == mem[j];
    }
  }

  lemma FullByte(k: nat)
    requires k < 8
    ensures ByteHas(0xff, k)
  {
    MaskValues();
  }
}
