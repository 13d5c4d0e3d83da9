/** cmake/bigint/src/natconv.c, first part: bit lengths, powers, and the table of powers that
    convertWords divides by. */
module RadixTable {
  import opened Bits
  import opened Base
  import opened Nats
  import opened MulBasic
  import opened Shift
  import opened WordDiv
  import opened Ripples
  import opened Multiplication
  import opened Squaring
  import opened Positional

  // ---- natBitLen ---------------------------------------------------------------------------

  function WordsBitLen(s: seq<Word>): (n: nat) {
    if |s| == 0 then 0 else (|s| - 1) * 64 + BitLen(s[|s| - 1])
  }

  // One step of spreading the top bit downwards
  function Smear(x: Word, k: nat): (r: Word)
    ensures BitLen(r) == BitLen(x)
  {
    SmearKeepsLen(x, k);
    BitOr(x, Shr(x, k))
  }

  lemma SmearKeepsLen(x: Word, k: nat)
    ensures BitOr(x, Shr(x, k)) < W && BitLen(BitOr(x, Shr(x, k))) == BitLen(x)
  {
    hide BitOr, Shr, Pow2;
    var n, y := BitLen(x), Shr(x, k);
    BitLenBounds(x);
    WordBitLen(x);
    OrBelow(x, y, n);
    BitLenUnique(BitOr(x, y), n);
    Pow2Consts();
    Pow2Mono(n, 64);
  }

  lemma OrBelow(x: nat, y: nat, n: nat)
    requires x < Pow2(n) && y < Pow2(n)
    ensures BitOr(x, y) < Pow2(n)
  {
    OrShr(x, y, n);
    HalvedIsDiv(x, n);
    HalvedIsDiv(y, n);
    HalvedIsDiv(BitOr(x, y), n);
    hide Pow2, Halved;
    DivModUnique(x, Pow2(n), 0, x);
    DivModUnique(y, Pow2(n), 0, y);
    DivBounds(BitOr(x, y), Pow2(n));
  }

  method NatBitLen(x: Nat) returns (n: nat)
    requires InBounds(x)
    ensures n == WordsBitLen(Words(x))
  {
    hide BitLen, Smear;
    if x.len == 0 { return 0; }
    var top: Word := x.data[x.off + x.len - 1];
    top := Smear(top, 1);
    top := Smear(top, 2);
    top := Smear(top, 4);
    top := Smear(top, 8);
    top := Smear(top, 16);
    top := Smear(top, 32);
    var len := Len64(top);
    n := (x.len - 1) * 64 + len;
  }

  lemma {:induction false} PowIsPow2(n: nat)
    ensures Pow(n) == Pow2(64 * n)
  {
    if n > 0 {
      PowIsPow2(n - 1);
      Pow2Consts();
      Pow2Add(64, 64 * (n - 1));
    }
  }

  // The bit length of a normalised number brackets it between powers of two.
  lemma BitLenBrackets(s: seq<Word>)
    requires Normal(s)
    ensures var n := WordsBitLen(s);
      0 <= Val(s) < Pow2(n) && (|s| > 0 ==> n > 0 && Pow2(n - 1) <= Val(s))
  {
    hide *;
    if |s| > 0 {
      var k := |s| - 1;
      TopWord(s);
      ValBound(s[..k]);
      BitLenBounds(s[k]);
      PowIsPow2(k);
      Pow2Add(64 * k, BitLen(s[k]));
      Pow2Add(64 * k, BitLen(s[k]) - 1);
      TopBracket(Val(s[..k]), s[k], Pow(k), Pow2(BitLen(s[k]) - 1), Pow2(BitLen(s[k])));
    } else {
      EmptyBitLen(s);
    }
  }

  lemma TopWord(s: seq<Word>)
    requires |s| > 0
    ensures Val(s) == Val(s[..|s| - 1]) + s[|s| - 1] * Pow(|s| - 1)
    ensures WordsBitLen(s) == (|s| - 1) * 64 + BitLen(s[|s| - 1])
    ensures Normal(s) ==> s[|s| - 1] > 0
  {}

  lemma EmptyBitLen(s: seq<Word>)
    requires |s| == 0
    ensures Val(s) == 0 && WordsBitLen(s) == 0 && Pow2(0) == 1
  {}

  lemma TopBracket(low: int, top: int, p: int, least: int, most: int)
    requires 0 <= low < p && least <= top < most
    ensures p * least <= low + top * p < p * most
  {
    MulMono(least, top, p);
    MulMono(top + 1, most, p);
    assert (top + 1) * p == top * p + p;
  }

  lemma FewerBitsSmaller(s: seq<Word>, t: seq<Word>)
    requires Normal(s) && Normal(t) && WordsBitLen(s) < WordsBitLen(t)
    ensures Val(s) < Val(t)
  {
    hide Pow2, BitLen, Val;
    BitLenBrackets(s);
    BitLenBrackets(t);
    Pow2Mono(WordsBitLen(s), WordsBitLen(t) - 1);
  }

  // ---- maxPow ------------------------------------------------------------------------------

  // For the bases lo .. hi, W lies between the powers k and k + 1, and further than the base
  // above the lower one.
  predicate Gap(lo: nat, hi: nat, k: nat) {
    Power(hi, k) + hi < W <= Power(lo, k + 1)
  }

  lemma GapsA()
    ensures Gap(57, 62, 10) && Gap(41, 56, 11) && Gap(31, 40, 12) && Gap(24, 30, 13)
  {
    assert Power(62, 10) == 839299365868340224;
    assert Power(57, 5) == 601692057;
    PowerStep(57, 6);
    PowerAdd(57, 5, 6);
    assert Power(56, 5) == 550731776;
    PowerStep(56, 6);
    PowerAdd(56, 5, 6);
    assert Power(41, 6) == 4750104241;
    PowerAdd(41, 6, 6);
    assert Power(40, 6) == 4096000000;
    PowerAdd(40, 6, 6);
    assert Power(31, 6) == 887503681;
    PowerStep(31, 7);
    PowerAdd(31, 6, 7);
    assert Power(30, 6) == 729000000;
    PowerStep(30, 7);
    PowerAdd(30, 6, 7);
    assert Power(24, 7) == 4586471424;
    PowerAdd(24, 7, 7);
  }

  lemma GapsB()
    ensures Gap(20, 23, 14) && Gap(16, 19, 15) && Gap(14, 15, 16) && Gap(12, 13, 17)
  {
    assert Power(23, 7) == 3404825447;
    PowerAdd(23, 7, 7);
    assert Power(20, 7) == 1280000000;
    PowerStep(20, 8);
    PowerAdd(20, 7, 8);
    assert Power(19, 7) == 893871739;
    PowerStep(19, 8);
    PowerAdd(19, 7, 8);
    assert Power(16, 8) == 4294967296;
    PowerAdd(16, 8, 8);
    assert Power(15, 8) == 2562890625;
    PowerAdd(15, 8, 8);
    assert Power(14, 8) == 1475789056;
    PowerStep(14, 9);
    PowerAdd(14, 8, 9);
    assert Power(13, 8) == 815730721;
    PowerStep(13, 9);
    PowerAdd(13, 8, 9);
    assert Power(12, 9) == 5159780352;
    PowerAdd(12, 9, 9);
  }

  lemma GapsC()
    ensures Gap(11, 11, 18) && Gap(10, 10, 19) && Gap(9, 9, 20) && Gap(8, 8, 21) && Gap(7, 7, 22)
  {
    assert Power(11, 9) == 2357947691;
    PowerAdd(11, 9, 9);
    PowerStep(11, 19);
    assert Power(10, 9) == 1000000000;
    PowerStep(10, 10);
    PowerAdd(10, 9, 10);
    PowerStep(10, 20);
    assert Power(9, 10) == 3486784401;
    PowerAdd(9, 10, 10);
    PowerStep(9, 21);
    assert Power(8, 10) == 1073741824;
    PowerStep(8, 11);
    PowerAdd(8, 10, 11);
    PowerStep(8, 22);
    assert Power(7, 5) == 16807;
    PowerStep(7, 6);
    PowerAdd(7, 5, 6);
    PowerAdd(7, 11, 11);
    PowerStep(7, 23);
  }

  lemma GapsD()
    ensures Gap(6, 6, 24) && Gap(5, 5, 27) && Gap(4, 4, 31)
  {
    assert Power(6, 6) == 46656;
    PowerAdd(6, 6, 6);
    PowerAdd(6, 12, 12);
    PowerStep(6, 25);
    assert Power(5, 6) == 15625;
    PowerStep(5, 7);
    PowerAdd(5, 6, 7);
    PowerStep(5, 14);
    PowerAdd(5, 13, 14);
    PowerStep(5, 28);
    assert Power(4, 7) == 16384;
    PowerStep(4, 8);
    PowerAdd(4, 7, 8);
    PowerStep(4, 16);
    PowerAdd(4, 15, 16);
    PowerStep(4, 32);
  }

  lemma GapsE()
    ensures Gap(3, 3, 40) && Gap(2, 2, 63)
  {
    hide Pow2;
    assert Power(3, 10) == 59049;
    PowerAdd(3, 10, 10);
    PowerAdd(3, 20, 20);
    PowerStep(3, 41);
    hide Power;
    PowerOfTwoIs(63);
    PowerOfTwoIs(64);
    Pow2Consts();
  }

  lemma {:induction false} PowerOfTwoIs(n: nat)
    ensures Power(2, n) == Pow2(n)
  {
    if n > 0 { PowerOfTwoIs(n - 1); }
  }

  lemma {:induction false} LargerBase(a: nat, b: nat, n: nat)
    requires a <= b
    ensures Power(a, n) <= Power(b, n)
  {
    if n > 0 {
      LargerBase(a, b, n - 1);
      MulMono(Power(a, n - 1), Power(b, n - 1), a);
      MulMono(a, b, Power(b, n - 1));
    }
  }

  lemma LargerExponent(b: nat, m: nat, n: nat)
    requires b > 0 && m <= n
    ensures Power(b, m) <= Power(b, n)
  {
    PowerAdd(b, n - m, m);
    PowerPositive(b, n - m);
    MulMono(1, Power(b, n - m), Power(b, m));
  }

  lemma Between(lo: nat, b: nat, hi: nat, k: nat)
    requires lo <= b <= hi && Gap(lo, hi, k)
    ensures Gap(b, b, k)
  {
    LargerBase(b, hi, k);
    LargerBase(lo, b, k + 1);
  }

  // No power of a base lies within the base below W.
  lemma NoNearMiss(b: Radix) returns (k: nat)
    ensures Gap(b, b, k)
  {
    GapsA();
    GapsB();
    GapsC();
    GapsD();
    GapsE();
    hide Gap;
    if b >= 57 { k := 10; Between(57, b, 62, k); }
    else if b >= 41 { k := 11; Between(41, b, 56, k); }
    else if b >= 31 { k := 12; Between(31, b, 40, k); }
    else if b >= 24 { k := 13; Between(24, b, 30, k); }
    else if b >= 20 { k := 14; Between(20, b, 23, k); }
    else if b >= 16 { k := 15; Between(16, b, 19, k); }
    else if b >= 14 { k := 16; Between(14, b, 15, k); }
    else if b >= 12 { k := 17; Between(12, b, 13, k); }
    else if b >= 11 { k := 18; Between(11, b, 11, k); }
    else if b >= 10 { k := 19; Between(10, b, 10, k); }
    else if b >= 9 { k := 20; Between(9, b, 9, k); }
    else if b >= 8 { k := 21; Between(8, b, 8, k); }
    else if b >= 7 { k := 22; Between(7, b, 7, k); }
    else if b >= 6 { k := 24; Between(6, b, 6, k); }
    else if b >= 5 { k := 27; Between(5, b, 5, k); }
    else if b >= 4 { k := 31; Between(4, b, 4, k); }
    else if b >= 3 { k := 40; Between(3, b, 3, k); }
    else { k := 63; Between(2, b, 2, k); }
  }

  // So the loop of maxPow, which compares with (W - 1) / b, never stops one power early.
  lemma NextOverflows(b: Radix, p: int, n: nat)
    requires p == Power(b, n) && p * b + b >= W
    ensures p * b >= W
  {
    var k := NoNearMiss(b);
    hide Power;
    PowerStep(b, n + 1);
    if n + 1 <= k { LargerExponent(b, n + 1, k); } else { LargerExponent(b, k + 1, n + 1); }
  }

  // The largest power of b that fits in a word
  method MaxPow(b: Radix) returns (p: Word, n: nat)
    ensures n > 0 && p == Power(b, n) && b <= p && p * b >= W
  {
    hide Power, Gap;
    var max := (W - 1) / b;
    DivBounds(W - 1, b);
    p, n := b, 1;
    OnePower(b);
    while p < max
      invariant n > 0 && b <= p && p == Power(b, n)
      decreases max - p
    {
      PowerStep(b, n + 1);
      MulMono(p + 1, max, b);
      assert (p + 1) * b == p * b + b;
      MulMono(2, b, p);
      p := p * b;
      n := n + 1;
    }
    MulMono(max, p, b);
    NextOverflows(b, p, n);
  }

  lemma OnePower(b: nat)
    ensures Power(b, 1) == b
  {}

  // ---- natExpWW ----------------------------------------------------------------------------

  // e holds the bits of y consumed so far, v the other k bits, left-aligned in a word.
  ghost predicate BitsLeft(y: nat, e: nat, k: nat, v: Word) {
    && k <= 64 && 0 <= y - e * Pow2(k) < Pow2(k)
    && v == (y - e * Pow2(k)) * Pow2(64 - k)
  }

  lemma FirstBit(y: Word)
    requires y >= 2
    ensures Nlz(y) + 1 < 64 && BitsLeft(y, 1, 64 - (Nlz(y) + 1), Shl(y, Nlz(y) + 1))
  {
    hide Pow2, Nlz;
    var s := Nlz(y) + 1;
    Normalises(y);
    Pow2Consts();
    Pow2Double(s - 1);
    assert y * Pow2(s) == 2 * (y * Pow2(s - 1));
    if s == 64 { assert Pow2(63) == TOP; }
    Pow2Add(64 - s, s);
    DivModUnique(y * Pow2(s), W, 1, y * Pow2(s) - W);
    assert (y - Pow2(64 - s)) * Pow2(s) == y * Pow2(s) - W;
    BelowByFactor(y - Pow2(64 - s), Pow2(64 - s), Pow2(s));
  }

  lemma BelowByFactor(t: int, p: int, c: int)
    requires p > 0 && c > 0 && p * c == W && 0 <= t * c < W
    ensures 0 <= t < p
  {
    CancelLt(t, p, c);
    CancelLt(-1, t, c);
  }

  lemma NextBit(y: nat, e: nat, k: nat, v: Word)
    requires k > 0 && BitsLeft(y, e, k, v)
    ensures BitsLeft(y, if v >= TOP then 2 * e + 1 else 2 * e, k - 1, Shl(v, 1))
  {
    hide Pow2;
    var p, c := Pow2(k - 1), Pow2(64 - k);
    Pow2Double(k - 1);
    Pow2Double(64 - k);
    Pow2Consts();
    Pow2Add(k - 1, 64 - k);
    var t := y - e * Pow2(k);
    assert e * (2 * p) == (2 * e) * p && (2 * e + 1) * p == (2 * e) * p + p;
    DropBit(t, p, c, v);
    Pow2One();
  }

  lemma DropBit(t: int, p: int, c: int, v: Word)
    requires 0 <= t < 2 * p && v == t * c && p * c == TOP && c > 0
    ensures v >= TOP <==> t >= p
    ensures (v * 2) % W == (if v >= TOP then t - p else t) * (2 * c)
  {
    if t >= p { MulMono(p, t, c); } else { MulMono(t + 1, p, c); assert (t + 1) * c == t * c + c; }
    assert t * (2 * c) == 2 * (t * c) && (t - p) * (2 * c) == 2 * (t * c) - 2 * (p * c);
    var x: int := v;
    DivModUnique(x * 2, W, if v >= TOP then 1 else 0, if v >= TOP then x * 2 - W else x * 2);
  }

  lemma AndTopBit(v: Word)
    ensures BitAnd(v, TOP) != 0 <==> v >= TOP
  {
    AndTop(v, TOP);
    Pow2Consts();
    hide BitAnd, Pow2;
    if v < TOP { AndHigher(v, 63); }
  }

  lemma {:induction false} AndHigher(x: nat, k: nat)
    requires x < Pow2(k)
    ensures BitAnd(x, Pow2(k)) == 0
  {
    if k > 0 { AndHigher(x / 2, k - 1); }
  }

  method Times(x: Nat, y: Nat) returns (z: Nat)
    requires InBounds(x) && InBounds(y)
    ensures fresh(z.data) && InBounds(z) && Val(Words(z)) == Val(Words(x)) * Val(Words(y))
    ensures Val(Words(z)) > 0 ==> Normal(Words(z))
  {
    z := NatMul(x, y, Repaired);
    ValOne([0]);
  }

  // natExpNN without a modulus: square and multiply, taking the bits of y from the top.
  method NatExpWW(x: Word, y: Word) returns (z: Nat)
    requires y > 0
    ensures fresh(z.data) && InBounds(z) && Val(Words(z)) == Power(x, y)
    ensures if x == 0 && y == 1 then Words(z) == [0] else Normal(Words(z))
  {
    hide Val, Power, IsProduct, Shl, BitAnd, BitsLeft, Nlz;
    var nx := NewWord(x);
    ValOne(Words(nx));
    z := NatDup(nx);
    OnePower(x);
    if x == 1 || y == 1 {
      PowerOfOne(y);
      return;
    }
    FirstBit(y);
    var shift := Nlz(y) + 1;
    var v: Word := Shl(y, shift);
    ghost var e: nat := 1;
    for j := 0 to 64 - shift
      invariant fresh(z.data) && InBounds(z) && Val(Words(z)) == Power(x, e)
      invariant BitsLeft(y, e, 64 - shift - j, v)
      invariant x > 0 ==> Normal(Words(z))
      invariant Words(nx) == [x]
    {
      NextBit(y, e, 64 - shift - j, v);
      AndTopBit(v);
      PowerAdd(x, e, e);
      PowerAdd(x, 2 * e, 1);
      if x > 0 { PowerPositive(x, 2 * e + 1); }
      z := NatSqr(z, Repaired);
      assert Val(Words(z)) == Power(x, 2 * e);
      if BitAnd(v, TOP) != 0 {
        z := Times(z, nx);
      }
      e := if v >= TOP then 2 * e + 1 else 2 * e;
      v := Shl(v, 1);
    }
    AllBits(y, e, v);
    z := NatNorm(z);
  }

  lemma PowerOfOne(n: nat)
    ensures Power(1, n) == 1
  {}

  lemma AllBits(y: nat, e: nat, v: Word)
    requires BitsLeft(y, e, 0, v)
    ensures e == y
  {}

  // ---- divisors ----------------------------------------------------------------------------

  const LEAF_SIZE: nat := 8

  // struct divisor
  datatype TableEntry = TableEntry(bbb: Nat, nbits: nat, ndigits: nat)

  ghost predicate EntryOk(e: TableEntry, b: Radix)
    reads e.bbb.data
  {
    && InBounds(e.bbb) && Normal(Words(e.bbb))
    && Val(Words(e.bbb)) == Power(b, e.ndigits) >= W
    && e.nbits == WordsBitLen(Words(e.bbb))
  }

  // No further power of b fits in as many words.
  ghost predicate Largest(e: TableEntry, b: Radix)
    requires InBounds(e.bbb)
    reads e.bbb.data
  {
    Power(b, e.ndigits + 1) >= Pow(e.bbb.len)
  }

  ghost function TableData(table: seq<TableEntry>): set<object> {
    set i | 0 <= i < |table| :: table[i].bbb.data
  }

  ghost predicate TableOk(table: seq<TableEntry>, b: Radix)
    reads TableData(table)
  {
    && (forall i :: 0 <= i < |table| ==> EntryOk(table[i], b))
    && (|table| > 0 ==> table[0].bbb.len <= LEAF_SIZE)
  }

  // Multiply by b as long as the number of words does not grow.
  method Enlarge(bbb: Nat, nd: nat, b: Radix) returns (ndigits: nat)
    requires InBounds(bbb) && bbb.len > 0 && Normal(Words(bbb)) && Val(Words(bbb)) == Power(b, nd)
    modifies bbb.data
    ensures Normal(Words(bbb)) && Val(Words(bbb)) == Power(b, ndigits)
    ensures nd <= ndigits && Val(Words(bbb)) >= old(Val(Words(bbb)))
    ensures Power(b, ndigits + 1) >= Pow(bbb.len)
  {
    hide Val, Pow, Power, Normal, Scaled;
    NormalLow(Words(bbb));
    var n := bbb.len;
    ndigits := nd;
    var larger := NatDup(bbb);
    WholeFirst(larger);
    var c: Word := MulAddVWW(larger, larger, b, 0);
    WholeFirst(larger);
    Overflow(Words(larger), c, Words(bbb), b, ndigits);
    while c == 0
      invariant InBounds(larger) && larger.len == n && larger.data != bbb.data && fresh(larger.data)
      invariant nd <= ndigits && Val(Words(bbb)) == Power(b, ndigits) >= old(Val(Words(bbb)))
      invariant Pow(n - 1) <= Val(Words(bbb)) < Pow(n)
      invariant Val(Words(larger)) + c * Pow(n) == Power(b, ndigits + 1) > Power(b, ndigits)
      invariant c > 0 ==> Power(b, ndigits + 1) >= Pow(n)
      decreases Pow(n) - Val(Words(bbb))
    {
      NoOverflow(c, Pow(n));
      ValBound(Words(larger));
      NatCopy(bbb, larger);
      ndigits := ndigits + 1;
      WholeFirst(larger);
      ghost var before := Words(bbb);
      c := MulAddVWW(larger, larger, b, 0);
      WholeFirst(larger);
      Overflow(Words(larger), c, before, b, ndigits);
    }
    LowNormal(Words(bbb));
  }

  lemma WholeFirst(z: Nat)
    requires InBounds(z)
    ensures First(z, Min(z.len, z.len)) == Words(z)
  {}

  lemma NoOverflow(c: int, p: int)
    ensures c == 0 ==> c * p == 0
  {}

  lemma Overflow(zs: seq<Word>, c: Word, xs: seq<Word>, b: Radix, nd: nat)
    requires Scaled(zs, c, xs, b, 0) && Val(xs) == Power(b, nd)
    ensures Val(xs) < Pow(|xs|)
    ensures Val(zs) + c * Pow(|xs|) == Power(b, nd + 1) > Power(b, nd)
    ensures c > 0 ==> Power(b, nd + 1) >= Pow(|xs|)
  {
    hide Val, Pow;
    ValBound(xs);
    ValBound(zs);
    PowerPositive(b, nd);
    MulMono(2, b, Power(b, nd));
    if c > 0 { MulMono(1, c, Pow(|xs|)); }
  }

  lemma LowNormal(s: seq<Word>)
    requires |s| > 0 && Pow(|s| - 1) <= Val(s)
    ensures Normal(s)
  {
    ValBound(s[..|s| - 1]);
  }

  // One more than the largest entry so far: bb^8 first, then squares, enlarged
  method NextEntry(table: seq<TableEntry>, b: Radix, ndigits: nat, bb: Word) returns (e: TableEntry)
    requires TableOk(table, b)
    requires bb == Power(b, ndigits) >= b && bb * b >= W
    ensures fresh(e.bbb.data) && InBounds(e.bbb) && EntryOk(e, b) && Largest(e, b)
    ensures |table| == 0 ==> e.bbb.len <= LEAF_SIZE
    ensures |table| > 0 ==> e.ndigits >= 2 * table[|table| - 1].ndigits
  {
    hide Val, Pow, Power, Normal, WordsBitLen;
    var bbb: Nat;
    var nd: nat;
    if |table| == 0 {
      bbb := NatExpWW(bb, LEAF_SIZE);
      nd := ndigits * LEAF_SIZE;
      FirstEntry(Words(bbb), b, ndigits, bb);
    } else {
      var last := table[|table| - 1];
      bbb := NatSqr(last.bbb, Repaired);
      nd := 2 * last.ndigits;
      PowerAdd(b, last.ndigits, last.ndigits);
      MulMono(1, Val(Words(last.bbb)), Val(Words(last.bbb)));
    }
    AtLeastTwo(Words(bbb));
    nd := Enlarge(bbb, nd, b);
    var nbits := NatBitLen(bbb);
    e := TableEntry(bbb, nbits, nd);
  }

  lemma AtLeastTwo(s: seq<Word>)
    requires Val(s) >= W
    ensures |s| > 0
  {}

  lemma FirstEntry(s: seq<Word>, b: Radix, ndigits: nat, bb: Word)
    requires bb == Power(b, ndigits) >= b && bb * b >= W
    requires Normal(s) && Val(s) == Power(bb, LEAF_SIZE)
    ensures Val(s) == Power(b, ndigits * LEAF_SIZE) >= W && |s| <= LEAF_SIZE
  {
    hide Val, Pow, Normal, Power;
    PowerOfPower(b, ndigits, LEAF_SIZE);
    PowerOfWord(bb, LEAF_SIZE);
    AtLeastCube(bb, LEAF_SIZE);
    BigEnough(bb, b);
    if |s| > 0 {
      NormalLow(s);
      if |s| > LEAF_SIZE { PowMono(LEAF_SIZE, |s| - 1); }
    }
  }

  lemma {:induction false} PowerOfWord(x: Word, n: nat)
    ensures n > 0 ==> Power(x, n) < Pow(n)
  {
    if n > 1 {
      PowerOfWord(x, n - 1);
      var w: int := x;
      MulMono(w, W, Power(x, n - 1));
    } else if n == 1 {
      OnePower(x);
      NextPow(0);
      PowZero();
    }
  }

  lemma {:induction false} AtLeastCube(x: nat, n: nat)
    requires x > 0 && n >= 3
    ensures Power(x, n) >= x * (x * x)
  {
    if n == 3 {
      OnePower(x);
      PowerStep(x, 2);
      PowerStep(x, 3);
    } else {
      AtLeastCube(x, n - 1);
      MulMono(1, x, Power(x, n - 1));
    }
  }

  lemma BigEnough(p: int, b: int)
    requires 2 <= b <= p && p * b >= W
    ensures p * (p * p) >= W
  {
    MulMono(b, p, p);
    MulMono(1, p, p);
    MulMono(2, p, p * p);
  }

  // The table for a number of m words, or none
  method Divisors(m: nat, b: Radix, ndigits: nat, bb: Word) returns (table: seq<TableEntry>)
    requires bb == Power(b, ndigits) >= b && bb * b >= W
    ensures TableOk(table, b) && forall e :: e in table ==> fresh(e.bbb.data) && Largest(e, b)
    ensures |table| == 0 <==> m <= 8
    ensures forall i :: 0 < i < |table| ==> table[i].ndigits >= 2 * table[i - 1].ndigits
    ensures m > 8 ==> 8 * Pow2(|table| - 1) >= m / 2
    ensures |table| > 1 ==> 8 * Pow2(|table| - 2) < m / 2
  {
    hide EntryOk, Largest, Power;
    table := [];
    if m <= LEAF_SIZE { return; }
    var k := 1;
    var words := LEAF_SIZE;
    while words < m / 2
      invariant k >= 1 && words == LEAF_SIZE * Pow2(k - 1) && (k > 1 ==> LEAF_SIZE * Pow2(k - 2) < m / 2)
      decreases m / 2 - words
    {
      words := words * 2;
      k := k + 1;
    }
    for i := 0 to k
      invariant |table| == i && TableOk(table, b)
      invariant forall e :: e in table ==> fresh(e.bbb.data) && InBounds(e.bbb) && Largest(e, b)
      invariant forall i :: 0 < i < |table| ==> table[i].ndigits >= 2 * table[i - 1].ndigits
    {
      var e := NextEntry(table, b, ndigits, bb);
      assert forall d :: d in table + [e] ==> d in table || d == e;
      table := table + [e];
    }
  }
}
