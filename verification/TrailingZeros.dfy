/** cmake/bigint/src/base.c, TrailingZeros64: the number of trailing zero bits, looked up by the top
    six bits of a multiple of a de Bruijn constant. */
module TrailingZeros {
  import opened Bits
  import opened Base

  const DE_BRUIJN: int := 0x03f79d71b4ca8b09

  // deBruijn64tab, line by line
  function DeBruijnTab(i: nat): nat
    requires i < 64
  {
    if i < 16 then [0, 1, 56, 2, 57, 49, 28, 3, 61, 58, 42, 50, 38, 29, 17, 4][i]
    else if i < 32 then [62, 47, 59, 36, 45, 43, 51, 22, 53, 39, 33, 30, 24, 18, 12, 5][i - 16]
    else if i < 48 then [63, 55, 48, 27, 60, 41, 37, 16, 46, 35, 44, 21, 52, 32, 23, 11][i - 32]
    else [54, 26, 40, 15, 34, 20, 31, 10, 25, 14, 19, 9, 13, 8, 7, 6][i - 48]
  }

  // The multiplication moves a window of six bits of the constant to the top.
  function TrailingZeros64(x: Word): (n: nat)
    ensures n == if x == 0 then 64 else Ctz(x)
  {
    if x == 0 then 64
    else
      NegatedWord(x);
      WindowOfBit(Ctz(x));
      DeBruijnTab(Shr(Mul64(BitAnd(x, Sub64(0, x)), DE_BRUIJN), 58))
  }

  // The constant, shifted left k times
  function Rotated(k: nat): (r: int)
    ensures 0 <= r < W
  {
    if k == 0 then DE_BRUIJN else 2 * Rotated(k - 1) % W
  }

  lemma {:induction false} RotatedIs(k: nat)
    ensures Rotated(k) == Mul64(Pow2(k), DE_BRUIJN)
  {
    if k > 0 {
      RotatedIs(k - 1);
      var p := Pow2(k - 1) * DE_BRUIJN;
      assert Pow2(k) * DE_BRUIJN == 2 * p;
      hide Pow2, Rotated;
      DoubledMod(p);
    }
  }

  lemma DoubledMod(p: int)
    ensures 2 * (p % W) % W == 2 * p % W
  {
    assert 2 * p == 2 * (p % W) + (2 * (p / W)) * W;
    var q, r := 2 * (p % W) / W, 2 * (p % W) % W;
    DivModUnique(2 * p, W, q + 2 * (p / W), r);
  }

  function Window(k: nat): (i: nat)
    ensures i < 64
  {
    Rotated(k) / 0x400_0000_0000_0000
  }

  lemma Windows0(k: nat)
    requires Rotated(k) == 0x3f79d71b4ca8b09
    ensures Rotated(k + 8) == 0xf79d71b4ca8b0900
    ensures Window(k + 0) == 0 && Window(k + 1) == 1 && Window(k + 2) == 3 && Window(k + 3) == 7
    ensures Window(k + 4) == 15 && Window(k + 5) == 31 && Window(k + 6) == 63 && Window(k + 7) == 62
  {
    assert Rotated(k + 1) == 0x7ef3ae369951612;
    assert Rotated(k + 2) == 0xfde75c6d32a2c24;
    assert Rotated(k + 3) == 0x1fbceb8da6545848;
    assert Rotated(k + 4) == 0x3f79d71b4ca8b090;
    assert Rotated(k + 5) == 0x7ef3ae3699516120;
    assert Rotated(k + 6) == 0xfde75c6d32a2c240;
    assert Rotated(k + 7) == 0xfbceb8da65458480;
  }

  lemma Look0(k: nat)
    requires 0 <= k < 8
    requires Window(0) == 0 && Window(1) == 1 && Window(2) == 3 && Window(3) == 7
    requires Window(4) == 15 && Window(5) == 31 && Window(6) == 63 && Window(7) == 62
    ensures DeBruijnTab(Window(k)) == k
  {
    hide Rotated, Window;
    assert DeBruijnTab(0) == 0 && DeBruijnTab(1) == 1 && DeBruijnTab(3) == 2 && DeBruijnTab(7) == 3;
    assert DeBruijnTab(15) == 4 && DeBruijnTab(31) == 5 && DeBruijnTab(63) == 6 && DeBruijnTab(62) == 7;
  }

  lemma Windows8(k: nat)
    requires Rotated(k) == 0xf79d71b4ca8b0900
    ensures Rotated(k + 8) == 0x9d71b4ca8b090000
    ensures Window(k + 0) == 61 && Window(k + 1) == 59 && Window(k + 2) == 55 && Window(k + 3) == 47
    ensures Window(k + 4) == 30 && Window(k + 5) == 60 && Window(k + 6) == 57 && Window(k + 7) == 51
  {
    assert Rotated(k + 1) == 0xef3ae36995161200;
    assert Rotated(k + 2) == 0xde75c6d32a2c2400;
    assert Rotated(k + 3) == 0xbceb8da654584800;
    assert Rotated(k + 4) == 0x79d71b4ca8b09000;
    assert Rotated(k + 5) == 0xf3ae369951612000;
    assert Rotated(k + 6) == 0xe75c6d32a2c24000;
    assert Rotated(k + 7) == 0xceb8da6545848000;
  }

  lemma Look8(k: nat)
    requires 8 <= k < 16
    requires Window(8) == 61 && Window(9) == 59 && Window(10) == 55 && Window(11) == 47
    requires Window(12) == 30 && Window(13) == 60 && Window(14) == 57 && Window(15) == 51
    ensures DeBruijnTab(Window(k)) == k
  {
    hide Rotated, Window;
    assert DeBruijnTab(61) == 8 && DeBruijnTab(59) == 9 && DeBruijnTab(55) == 10 && DeBruijnTab(47) == 11;
    assert DeBruijnTab(30) == 12 && DeBruijnTab(60) == 13 && DeBruijnTab(57) == 14 && DeBruijnTab(51) == 15;
  }

  lemma Windows16(k: nat)
    requires Rotated(k) == 0x9d71b4ca8b090000
    ensures Rotated(k + 8) == 0x71b4ca8b09000000
    ensures Window(k + 0) == 39 && Window(k + 1) == 14 && Window(k + 2) == 29 && Window(k + 3) == 58
    ensures Window(k + 4) == 53 && Window(k + 5) == 43 && Window(k + 6) == 23 && Window(k + 7) == 46
  {
    assert Rotated(k + 1) == 0x3ae3699516120000;
    assert Rotated(k + 2) == 0x75c6d32a2c240000;
    assert Rotated(k + 3) == 0xeb8da65458480000;
    assert Rotated(k + 4) == 0xd71b4ca8b0900000;
    assert Rotated(k + 5) == 0xae36995161200000;
    assert Rotated(k + 6) == 0x5c6d32a2c2400000;
    assert Rotated(k + 7) == 0xb8da654584800000;
  }

  lemma Look16(k: nat)
    requires 16 <= k < 24
    requires Window(16) == 39 && Window(17) == 14 && Window(18) == 29 && Window(19) == 58
    requires Window(20) == 53 && Window(21) == 43 && Window(22) == 23 && Window(23) == 46
    ensures DeBruijnTab(Window(k)) == k
  {
    hide Rotated, Window;
    assert DeBruijnTab(39) == 16 && DeBruijnTab(14) == 17 && DeBruijnTab(29) == 18 && DeBruijnTab(58) == 19;
    assert DeBruijnTab(53) == 20 && DeBruijnTab(43) == 21 && DeBruijnTab(23) == 22 && DeBruijnTab(46) == 23;
  }

  lemma Windows24(k: nat)
    requires Rotated(k) == 0x71b4ca8b09000000
    ensures Rotated(k + 8) == 0xb4ca8b0900000000
    ensures Window(k + 0) == 28 && Window(k + 1) == 56 && Window(k + 2) == 49 && Window(k + 3) == 35
    ensures Window(k + 4) == 6 && Window(k + 5) == 13 && Window(k + 6) == 27 && Window(k + 7) == 54
  {
    assert Rotated(k + 1) == 0xe369951612000000;
    assert Rotated(k + 2) == 0xc6d32a2c24000000;
    assert Rotated(k + 3) == 0x8da6545848000000;
    assert Rotated(k + 4) == 0x1b4ca8b090000000;
    assert Rotated(k + 5) == 0x3699516120000000;
    assert Rotated(k + 6) == 0x6d32a2c240000000;
    assert Rotated(k + 7) == 0xda65458480000000;
  }

  lemma Look24(k: nat)
    requires 24 <= k < 32
    requires Window(24) == 28 && Window(25) == 56 && Window(26) == 49 && Window(27) == 35
    requires Window(28) == 6 && Window(29) == 13 && Window(30) == 27 && Window(31) == 54
    ensures DeBruijnTab(Window(k)) == k
  {
    hide Rotated, Window;
    assert DeBruijnTab(28) == 24 && DeBruijnTab(56) == 25 && DeBruijnTab(49) == 26 && DeBruijnTab(35) == 27;
    assert DeBruijnTab(6) == 28 && DeBruijnTab(13) == 29 && DeBruijnTab(27) == 30 && DeBruijnTab(54) == 31;
  }

  lemma Windows32(k: nat)
    requires Rotated(k) == 0xb4ca8b0900000000
    ensures Rotated(k + 8) == 0xca8b090000000000
    ensures Window(k + 0) == 45 && Window(k + 1) == 26 && Window(k + 2) == 52 && Window(k + 3) == 41
    ensures Window(k + 4) == 19 && Window(k + 5) == 38 && Window(k + 6) == 12 && Window(k + 7) == 25
  {
    assert Rotated(k + 1) == 0x6995161200000000;
    assert Rotated(k + 2) == 0xd32a2c2400000000;
    assert Rotated(k + 3) == 0xa654584800000000;
    assert Rotated(k + 4) == 0x4ca8b09000000000;
    assert Rotated(k + 5) == 0x9951612000000000;
    assert Rotated(k + 6) == 0x32a2c24000000000;
    assert Rotated(k + 7) == 0x6545848000000000;
  }

  lemma Look32(k: nat)
    requires 32 <= k < 40
    requires Window(32) == 45 && Window(33) == 26 && Window(34) == 52 && Window(35) == 41
    requires Window(36) == 19 && Window(37) == 38 && Window(38) == 12 && Window(39) == 25
    ensures DeBruijnTab(Window(k)) == k
  {
    hide Rotated, Window;
    assert DeBruijnTab(45) == 32 && DeBruijnTab(26) == 33 && DeBruijnTab(52) == 34 && DeBruijnTab(41) == 35;
    assert DeBruijnTab(19) == 36 && DeBruijnTab(38) == 37 && DeBruijnTab(12) == 38 && DeBruijnTab(25) == 39;
  }

  lemma Windows40(k: nat)
    requires Rotated(k) == 0xca8b090000000000
    ensures Rotated(k + 8) == 0x8b09000000000000
    ensures Window(k + 0) == 50 && Window(k + 1) == 37 && Window(k + 2) == 10 && Window(k + 3) == 21
    ensures Window(k + 4) == 42 && Window(k + 5) == 20 && Window(k + 6) == 40 && Window(k + 7) == 17
  {
    assert Rotated(k + 1) == 0x9516120000000000;
    assert Rotated(k + 2) == 0x2a2c240000000000;
    assert Rotated(k + 3) == 0x5458480000000000;
    assert Rotated(k + 4) == 0xa8b0900000000000;
    assert Rotated(k + 5) == 0x5161200000000000;
    assert Rotated(k + 6) == 0xa2c2400000000000;
    assert Rotated(k + 7) == 0x4584800000000000;
  }

  lemma Look40(k: nat)
    requires 40 <= k < 48
    requires Window(40) == 50 && Window(41) == 37 && Window(42) == 10 && Window(43) == 21
    requires Window(44) == 42 && Window(45) == 20 && Window(46) == 40 && Window(47) == 17
    ensures DeBruijnTab(Window(k)) == k
  {
    hide Rotated, Window;
    assert DeBruijnTab(50) == 40 && DeBruijnTab(37) == 41 && DeBruijnTab(10) == 42 && DeBruijnTab(21) == 43;
    assert DeBruijnTab(42) == 44 && DeBruijnTab(20) == 45 && DeBruijnTab(40) == 46 && DeBruijnTab(17) == 47;
  }

  lemma Windows48(k: nat)
    requires Rotated(k) == 0x8b09000000000000
    ensures Rotated(k + 8) == 0x900000000000000
    ensures Window(k + 0) == 34 && Window(k + 1) == 5 && Window(k + 2) == 11 && Window(k + 3) == 22
    ensures Window(k + 4) == 44 && Window(k + 5) == 24 && Window(k + 6) == 48 && Window(k + 7) == 33
  {
    assert Rotated(k + 1) == 0x1612000000000000;
    assert Rotated(k + 2) == 0x2c24000000000000;
    assert Rotated(k + 3) == 0x5848000000000000;
    assert Rotated(k + 4) == 0xb090000000000000;
    assert Rotated(k + 5) == 0x6120000000000000;
    assert Rotated(k + 6) == 0xc240000000000000;
    assert Rotated(k + 7) == 0x8480000000000000;
  }

  lemma Look48(k: nat)
    requires 48 <= k < 56
    requires Window(48) == 34 && Window(49) == 5 && Window(50) == 11 && Window(51) == 22
    requires Window(52) == 44 && Window(53) == 24 && Window(54) == 48 && Window(55) == 33
    ensures DeBruijnTab(Window(k)) == k
  {
    hide Rotated, Window;
    assert DeBruijnTab(34) == 48 && DeBruijnTab(5) == 49 && DeBruijnTab(11) == 50 && DeBruijnTab(22) == 51;
    assert DeBruijnTab(44) == 52 && DeBruijnTab(24) == 53 && DeBruijnTab(48) == 54 && DeBruijnTab(33) == 55;
  }

  lemma Windows56(k: nat)
    requires Rotated(k) == 0x900000000000000
    ensures Rotated(k + 8) == 0x0
    ensures Window(k + 0) == 2 && Window(k + 1) == 4 && Window(k + 2) == 9 && Window(k + 3) == 18
    ensures Window(k + 4) == 36 && Window(k + 5) == 8 && Window(k + 6) == 16 && Window(k + 7) == 32
  {
    assert Rotated(k + 1) == 0x1200000000000000;
    assert Rotated(k + 2) == 0x2400000000000000;
    assert Rotated(k + 3) == 0x4800000000000000;
    assert Rotated(k + 4) == 0x9000000000000000;
    assert Rotated(k + 5) == 0x2000000000000000;
    assert Rotated(k + 6) == 0x4000000000000000;
    assert Rotated(k + 7) == 0x8000000000000000;
  }

  lemma Look56(k: nat)
    requires 56 <= k < 64
    requires Window(56) == 2 && Window(57) == 4 && Window(58) == 9 && Window(59) == 18
    requires Window(60) == 36 && Window(61) == 8 && Window(62) == 16 && Window(63) == 32
    ensures DeBruijnTab(Window(k)) == k
  {
    hide Rotated, Window;
    assert DeBruijnTab(2) == 56 && DeBruijnTab(4) == 57 && DeBruijnTab(9) == 58 && DeBruijnTab(18) == 59;
    assert DeBruijnTab(36) == 60 && DeBruijnTab(8) == 61 && DeBruijnTab(16) == 62 && DeBruijnTab(32) == 63;
  }

  lemma PowerOf58()
    ensures Pow2(58) == 0x400_0000_0000_0000
  {
    Pow2Consts();
    assert Pow2(10) == 1024;
    Pow2Add(16, 10);
    Pow2Add(32, 26);
  }

  lemma RotatedStart()
    ensures Rotated(0) == DE_BRUIJN
  {}

  lemma WindowOfBit(k: nat)
    requires k < 64
    ensures Shr(Mul64(Pow2(k), DE_BRUIJN), 58) < 64 && DeBruijnTab(Shr(Mul64(Pow2(k), DE_BRUIJN), 58)) == k
  {
    hide Rotated, Pow2, Shr, Window;
    Windows(k);
    WindowIs(k);
  }

  lemma WindowIs(k: nat)
    ensures Shr(Mul64(Pow2(k), DE_BRUIJN), 58) == Window(k)
  {
    hide Rotated, Pow2;
    RotatedIs(k);
    PowerOf58();
  }

  lemma Windows(k: nat)
    requires k < 64
    ensures DeBruijnTab(Window(k)) == k
  {
    RotatedStart();
    hide Rotated, Window;
    Windows0(0);
    Windows8(8);
    Windows16(16);
    Windows24(24);
    Windows32(32);
    Windows40(40);
    Windows48(48);
    Windows56(56);
    if k < 8 { Look0(k); }
    else if k < 16 { Look8(k); }
    else if k < 24 { Look16(k); }
    else if k < 32 { Look24(k); }
    else if k < 40 { Look32(k); }
    else if k < 48 { Look40(k); }
    else if k < 56 { Look48(k); }
    else { Look56(k); }
  }
}
