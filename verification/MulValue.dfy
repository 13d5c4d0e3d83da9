/** The value natMul of cmake/bigint/src/natmul.c returns for any two operands, with addVW as written
    or repaired, and when it is their product. */
module MulValue {
  import opened Bits
  import opened Nats
  import opened Ripples
  import opened KaratsubaValue

  // ---- karatsubaLen -------------------------------------------------------------------------

  function BlockLen(n: nat, threshold: nat): (k: nat)
    ensures k <= n
  {
    if n <= threshold then n else 2 * BlockLen(n / 2, threshold)
  }

  lemma {:induction false} BlockLenPositive(n: nat, threshold: nat)
    requires n > 0 && threshold > 0
    ensures BlockLen(n, threshold) > 0
    decreases n
  {
    if n > threshold { BlockLenPositive(n / 2, threshold); }
  }

  lemma EvenBlock(h: nat, threshold: nat)
    requires h <= threshold
    ensures BlockLen(2 * h, threshold) == 2 * h
  {}

  // ---- addAt --------------------------------------------------------------------------------

  // z of len words, with the number t added at word i
  function AddedAt(how: Ripple, z: int, t: int, i: nat, len: nat): int
    requires i <= len
  {
    var p, n := Pow(i), Min(WordLen(t), len - i);
    z % p + p * Added(how, z / p, t, n, len - i - n)
  }

  // The words of t at i carry nothing, or the word above them has room.
  ghost predicate AddRight(z: int, t: int, i: nat) {
    var v, p := z / Pow(i), Pow(WordLen(t));
    v % p + t < p || v / p % W < W - 1
  }

  lemma WordLenBounds(x: int, n: nat)
    requires 0 <= x < Pow(n)
    ensures WordLen(x) <= n && x < Pow(WordLen(x))
    decreases n
  {
    if n > 0 && x > 0 {
      NextPow(n - 1);
      FewerWords(x);
      WordLenBounds(x / W, n - 1);
      NextPow(WordLen(x / W));
    } else {
      PowZero();
    }
  }

  lemma AddedAtExact(how: Ripple, z: int, t: int, i: nat, len: nat)
    requires i <= len && 0 <= z && 0 <= t && z + Pow(i) * t < Pow(len)
    ensures AddedAt(how, z, t, i, len) == z + Pow(i) * t <==> how.Repaired? || AddRight(z, t, i)
  {
    hide *;
    var v, n := z / Pow(i), WordLen(t);
    RestFits(z, t, i, len);
    WordLenBounds(t, len - i);
    OneAddition(how, v, t, n, len - i - n);
    Split(z, Pow(i));
    AddedTop(z, z % Pow(i), v, t, Added(how, v, t, n, len - i - n), Pow(i));
    AddedAtIs(how, z, t, i, len, v, n);
  }

  lemma RestFits(z: int, t: int, i: nat, len: nat)
    requires i <= len && 0 <= z && 0 <= t && z + Pow(i) * t < Pow(len)
    ensures 0 <= z / Pow(i) && z / Pow(i) + t < Pow(len - i)
  {
    hide *;
    PowAdd(i, len - i);
    Split(z, Pow(i));
    RestBelow(z, z % Pow(i), z / Pow(i), t, Pow(i), Pow(len - i));
  }

  lemma AddedAtIs(how: Ripple, z: int, t: int, i: nat, len: nat, v: int, n: nat)
    requires i <= len && v == z / Pow(i) && n == WordLen(t)
    ensures n <= len - i ==> AddedAt(how, z, t, i, len) == z % Pow(i) + Pow(i) * Added(how, v, t, n, len - i - n)
    ensures AddRight(z, t, i) <==> v % Pow(n) + t < Pow(n) || v / Pow(n) % W < W - 1
  {}

  lemma AddedTop(z: int, low: int, v: int, t: int, r: int, p: int)
    requires p > 0 && z == low + p * v
    ensures low + p * r == z + p * t <==> r == v + t
  {
    Shifted(p, v, t);
    SameMultiple(p, r, v + t, low);
  }

  lemma RestBelow(z: int, low: int, v: int, t: int, p: int, q: int)
    requires 0 <= low < p && z == low + p * v && 0 <= z && 0 <= t && z + p * t < p * q
    ensures 0 <= v && v + t < q
  {
    assert p * (v + t) == p * v + p * t && p * (v + t) == (v + t) * p && p * q == q * p;
    CancelLt(v + t, q, p);
    assert (-1) * p == -p && v * p == p * v;
    CancelLt(-1, v, p);
  }

  lemma Shifted(p: int, a: int, b: int)
    ensures p * (a + b) == p * a + p * b
  {}

  // One addition of n words to n + t words
  lemma OneAddition(how: Ripple, v: int, x: int, n: nat, t: nat)
    requires 0 <= v && 0 <= x < Pow(n) && v + x < Pow(n + t)
    ensures Added(how, v, x, n, t) == v + x
            <==> how.Repaired? || v % Pow(n) + x < Pow(n) || v / Pow(n) % W < W - 1
  {
    var p := Pow(n);
    var c := if v % p + x < p then 0 else 1;
    PowAdd(n, t);
    hide Added, Pow;
    RunStart(how, v, n, t);
    RunAdd(how, v, v, v / p, x, n, t);
    CarryInto(v, x, p, c);
    DivBounds(v, p);
    DivBounds(v + x, p);
    assert p * Pow(t) == Pow(t) * p;
    CancelLt((v + x) / p, Pow(t), p);
    hide RunsTo;
    RunExact(how, Added(how, v, x, n, t), v + x, v / p, n, t);
  }

  // ---- natMul -------------------------------------------------------------------------------

  // natNorm: the significant words of xs
  function Normed(xs: seq<Word>): (s: seq<Word>)
    ensures |s| <= |xs| && Normal(s) && Val(s) == Val(xs)
    ensures forall k :: |s| <= k < |xs| ==> xs[k] == 0
  {
    NormLenMeans(xs);
    xs[..NormLen(xs)]
  }

  function MulWords(how: Ripple, xs: seq<Word>, ys: seq<Word>): int
    decreases |xs| + |ys|, if |xs| < |ys| then 2 else 1, 0
  {
    if |xs| < |ys| then MulWords(how, ys, xs)
    else if |ys| < KARATSUBA_THRESHOLD then Val(xs) * Val(ys)
    else
      var k := BlockLen(|ys|, KARATSUBA_THRESHOLD);
      var low := Product(how, Val(xs[..k]), Val(ys[..k]), k);
      if k == |ys| == |xs| then low
      else
        BlockLenPositive(|ys|, KARATSUBA_THRESHOLD);
        var cross := MulWords(how, Normed(xs[..k]), ys[k..]);
        BlockValues(how, AddedAt(how, low, cross, k, |xs| + |ys|), xs, ys, k, k)
  }

  // The loop over the further blocks of x
  function BlockValues(how: Ripple, z: int, xs: seq<Word>, ys: seq<Word>, k: nat, i: nat): int
    requires 0 < k <= |ys| <= |xs| && k <= i
    decreases |xs| + |ys|, 0, |xs| - i
  {
    if i >= |xs| then z
    else
      var a := Normed(xs[i..Min(i + k, |xs|)]);
      var z0 := AddedAt(how, z, MulWords(how, a, Normed(ys[..k])), i, |xs| + |ys|);
      var z1 := AddedAt(how, z0, MulWords(how, a, ys[k..]), i + k, |xs| + |ys|);
      BlockValues(how, z1, xs, ys, k, i + k)
  }

  // Every product inside is right, and every sum of partial products has room.
  ghost predicate MulRight(xs: seq<Word>, ys: seq<Word>)
    decreases |xs| + |ys|, if |xs| < |ys| then 2 else 1, 0
  {
    if |xs| < |ys| then MulRight(ys, xs)
    else if |ys| < KARATSUBA_THRESHOLD then true
    else
      var k := BlockLen(|ys|, KARATSUBA_THRESHOLD);
      && KaratsubaRight(Val(xs[..k]), Val(ys[..k]), k)
      && (k == |ys| == |xs| ||
          (&& MulRight(Normed(xs[..k]), ys[k..])
           && AddRight(Val(xs[..k]) * Val(ys[..k]), Val(xs[..k]) * Val(ys[k..]), k)
           && (BlockLenPositive(|ys|, KARATSUBA_THRESHOLD); BlocksRight(xs, ys, k, k))))
  }

  ghost predicate BlocksRight(xs: seq<Word>, ys: seq<Word>, k: nat, i: nat)
    requires 0 < k <= |ys| <= |xs| && k <= i
    decreases |xs| + |ys|, 0, |xs| - i
  {
    i < |xs| ==>
      var xi := xs[i..Min(i + k, |xs|)];
      var z, t0, t1 := Val(xs[..i]) * Val(ys), Val(xi) * Val(ys[..k]), Val(xi) * Val(ys[k..]);
      && MulRight(Normed(xi), Normed(ys[..k])) && AddRight(z, t0, i)
      && MulRight(Normed(xi), ys[k..]) && AddRight(z + Pow(i) * t0, t1, i + k)
      && BlocksRight(xs, ys, k, i + k)
  }

  // ---- where that is the product ------------------------------------------------------------

  // x0 * y0 + x0 * y1 * W^k == x0 * y, below W^(m + n)
  lemma FirstCross(xs: seq<Word>, ys: seq<Word>, k: nat)
    requires k <= |xs| && k <= |ys|
    ensures Val(xs[..k]) * Val(ys[..k]) + Pow(k) * (Val(xs[..k]) * Val(ys[k..])) == Val(xs[..k]) * Val(ys)
    ensures Val(xs[..k]) * Val(ys) < Pow(|xs| + |ys|)
  {
    hide Val, Pow;
    ValSplit(ys, k);
    PrefixProductFits(xs, ys, k);
    var x, a, b, p := Val(xs[..k]), Val(ys[..k]), Val(ys[k..]), Pow(k);
    assert x * (a + p * b) == x * a + p * (x * b);
  }

  lemma PrefixProductFits(xs: seq<Word>, ys: seq<Word>, j: nat)
    requires j <= |xs|
    ensures 0 <= Val(xs[..j]) * Val(ys) < Pow(|xs| + |ys|)
  {
    hide Val, Pow;
    ValBound(xs[..j]);
    ValBound(ys);
    PowMono(j, |xs|);
    PowAdd(|xs|, |ys|);
    BothBelow(Val(xs[..j]), Val(ys), Pow(|xs|), Pow(|ys|));
  }

  lemma BothBelow(x: int, y: int, p: int, q: int)
    requires 0 <= x < p && 0 <= y < q
    ensures 0 <= x * y < p * q
  {
    MulMono(0, x, y);
    MulMono(x, p, y);
    MulMono(y + 1, q, p);
    assert (y + 1) * p == p * y + p && q * p == p * q;
  }

  lemma BlockSum(xs: seq<Word>, ys: seq<Word>, i: nat, j: nat, k: nat)
    requires i <= j <= |xs| && k <= |ys|
    ensures var a, y0, y1 := Val(xs[i..j]), Val(ys[..k]), Val(ys[k..]);
      && Val(xs[..i]) * Val(ys) + Pow(i) * (a * y0) + Pow(i + k) * (a * y1) == Val(xs[..j]) * Val(ys)
      && Val(xs[..i]) * Val(ys) + Pow(i) * (a * y0) < Pow(|xs| + |ys|)
      && Val(xs[..j]) * Val(ys) < Pow(|xs| + |ys|)
  {
    hide Val, Pow;
    var s := xs[..j];
    assert s[..i] == xs[..i] && s[i..] == xs[i..j];
    ValSplit(s, i);
    ValSplit(ys, k);
    PowAdd(i, k);
    PrefixProductFits(xs, ys, j);
    ValBound(xs[i..j]); ValBound(ys[k..]);
    var a, y0, y1, p, q := Val(xs[i..j]), Val(ys[..k]), Val(ys[k..]), Pow(i), Pow(k);
    MulMono(0, a, y1);
    MulMono(0, a * y1, p * q);
    SumAlgebra(Val(xs[..i]), a, y0, y1, p, q);
  }

  lemma SumAlgebra(x: int, a: int, y0: int, y1: int, p: int, q: int)
    requires p > 0 && q > 0
    ensures x * (y0 + q * y1) + p * (a * y0) + (p * q) * (a * y1) == (x + p * a) * (y0 + q * y1)
    ensures (p * q) * (a * y1) == (a * y1) * (p * q) && p * q > 0
  {
    assert (x + p * a) * (y0 + q * y1) == x * (y0 + q * y1) + (p * a) * y0 + (p * a) * (q * y1);
    assert (p * a) * y0 == p * (a * y0);
    assert (p * a) * (q * y1) == (p * q) * (a * y1);
    MulMono(1, p, q);
  }

  // The product, for all operands with the repaired addVW and for those with room as written
  lemma {:induction false} MulExact(how: Ripple, xs: seq<Word>, ys: seq<Word>)
    requires how.Repaired? || MulRight(xs, ys)
    ensures MulWords(how, xs, ys) == Val(xs) * Val(ys)
    decreases |xs| + |ys|, if |xs| < |ys| then 2 else 1, 0
  {
    if |xs| < |ys| {
      MulExact(how, ys, xs);
    } else if |ys| >= KARATSUBA_THRESHOLD {
      var k := BlockLen(|ys|, KARATSUBA_THRESHOLD);
      BlockLenPositive(|ys|, KARATSUBA_THRESHOLD);
      var x0, y0 := xs[..k], ys[..k];
      ValBound(x0);
      ValBound(y0);
      ProductExact(how, Val(x0), Val(y0), k);
      if k == |ys| == |xs| {
        TakeAll(xs);
        TakeAll(ys);
      } else {
        MulExact(how, Normed(x0), ys[k..]);
        hide *;
        CrossExact(how, xs, ys, k);
        BlocksExact(how, xs, ys, k, k);
      }
    }
  }

  lemma CrossExact(how: Ripple, xs: seq<Word>, ys: seq<Word>, k: nat)
    requires 0 < k <= |ys| <= |xs|
    requires how.Repaired? || AddRight(Val(xs[..k]) * Val(ys[..k]), Val(xs[..k]) * Val(ys[k..]), k)
    ensures AddedAt(how, Val(xs[..k]) * Val(ys[..k]), Val(Normed(xs[..k])) * Val(ys[k..]), k, |xs| + |ys|)
         == Val(xs[..k]) * Val(ys)
  {
    hide Val, Pow, AddRight, AddedAt;
    NormLenMeans(xs[..k]);
    FirstCross(xs, ys, k);
    NotNegative(xs[..k], ys[..k]);
    NotNegative(xs[..k], ys[k..]);
    AddedAtExact(how, Val(xs[..k]) * Val(ys[..k]), Val(xs[..k]) * Val(ys[k..]), k, |xs| + |ys|);
  }

  lemma NotNegative(xs: seq<Word>, ys: seq<Word>)
    ensures 0 <= Val(xs) * Val(ys)
  {
    ValBound(xs);
    ValBound(ys);
    MulMono(0, Val(xs), Val(ys));
  }

  lemma {:induction false} BlocksExact(how: Ripple, xs: seq<Word>, ys: seq<Word>, k: nat, i: nat)
    requires 0 < k <= |ys| <= |xs| && k <= i && (how.Repaired? || BlocksRight(xs, ys, k, i))
    ensures BlockValues(how, Val(xs[..Min(i, |xs|)]) * Val(ys), xs, ys, k, i) == Val(xs) * Val(ys)
    decreases |xs| + |ys|, 0, |xs| - i
  {
    if i >= |xs| {
      TakeAll(xs);
    } else {
      var a := Normed(xs[i..Min(i + k, |xs|)]);
      MulExact(how, a, Normed(ys[..k]));
      MulExact(how, a, ys[k..]);
      BlocksExact(how, xs, ys, k, i + k);
      NextBlocks(how, Val(xs[..i]) * Val(ys), xs, ys, k, i);
      hide *;
      NormLenMeans(xs[i..Min(i + k, |xs|)]);
      NormLenMeans(ys[..k]);
      BlockExact(how, xs, ys, k, i);
      assert Min(i, |xs|) == i by { MinIs(i, |xs|); }
    }
  }

  lemma MinIs(a: nat, b: nat)
    requires a <= b
    ensures Min(a, b) == a
  {}

  lemma NextBlocks(how: Ripple, z: int, xs: seq<Word>, ys: seq<Word>, k: nat, i: nat)
    requires 0 < k <= |ys| <= |xs| && k <= i < |xs|
    ensures var a, len := Normed(xs[i..Min(i + k, |xs|)]), |xs| + |ys|;
      var z0 := AddedAt(how, z, MulWords(how, a, Normed(ys[..k])), i, len);
      BlockValues(how, z, xs, ys, k, i)
      == BlockValues(how, AddedAt(how, z0, MulWords(how, a, ys[k..]), i + k, len), xs, ys, k, i + k)
  {
    hide MulWords, AddedAt, Val;
  }

  // One round
  lemma BlockExact(how: Ripple, xs: seq<Word>, ys: seq<Word>, k: nat, i: nat)
    requires 0 < k <= |ys| <= |xs| && k <= i < |xs| && (how.Repaired? || BlocksRight(xs, ys, k, i))
    ensures var xi, len := xs[i..Min(i + k, |xs|)], |xs| + |ys|;
      var z0 := AddedAt(how, Val(xs[..i]) * Val(ys), Val(Normed(xi)) * Val(Normed(ys[..k])), i, len);
      AddedAt(how, z0, Val(Normed(xi)) * Val(ys[k..]), i + k, len) == Val(xs[..Min(i + k, |xs|)]) * Val(ys)
  {
    hide Val, Pow, AddRight, AddedAt, MulRight;
    var j, len := Min(i + k, |xs|), |xs| + |ys|;
    var xi := xs[i..j];
    var z, t0, t1 := Val(xs[..i]) * Val(ys), Val(xi) * Val(ys[..k]), Val(xi) * Val(ys[k..]);
    NormLenMeans(xi);
    NormLenMeans(ys[..k]);
    BlockSum(xs, ys, i, j, k);
    NotNegative(xs[..i], ys); NotNegative(xi, ys[..k]); NotNegative(xi, ys[k..]);
    ScaledNotNegative(i, t0);
    AddedAtExact(how, z, t0, i, len);
    AddedAtExact(how, z + Pow(i) * t0, t1, i + k, len);
  }

  lemma ScaledNotNegative(i: nat, t: int)
    requires t >= 0
    ensures Pow(i) * t >= 0
  {
    MulMono(0, t, Pow(i));
  }

  // ---- short blocks ---------------------------------------------------------------------------

  // As written too, a product with an operand of fewer than 40 words is exact,
  lemma ShortExact(how: Ripple, xs: seq<Word>, ys: seq<Word>)
    requires |xs| < KARATSUBA_THRESHOLD || |ys| < KARATSUBA_THRESHOLD
    ensures MulWords(how, xs, ys) == Val(xs) * Val(ys) && MulRight(xs, ys)
  {
    hide Val, Product, BlockValues, AddedAt, KaratsubaRight, AddRight, BlocksRight;
  }

  // so a block with fewer than 40 significant words contributes its exact product, whatever it is
  // multiplied with and however long it is.
  lemma ShortBlock(how: Ripple, block: seq<Word>, ys: seq<Word>)
    requires NormLen(block) < KARATSUBA_THRESHOLD
    ensures MulWords(how, Normed(block), ys) == Val(block) * Val(ys) && MulRight(Normed(block), ys)
  {
    hide MulWords, MulRight, Val;
    ShortExact(how, Normed(block), ys);
  }

  // natMul as written is exact for any x of such blocks and a normalised y that is one block long,
  // if the lowest block is right.
  lemma ShortBlocksExact(xs: seq<Word>, ys: seq<Word>)
    requires KARATSUBA_THRESHOLD <= |ys| <= |xs| && BlockLen(|ys|, KARATSUBA_THRESHOLD) == |ys| && Normal(ys)
    requires KaratsubaRight(Val(xs[..|ys|]), Val(ys), |ys|)
    requires forall i :: |ys| <= i < |xs| && i % |ys| == 0 ==>
      NormLen(xs[i..Min(i + |ys|, |xs|)]) < KARATSUBA_THRESHOLD
    ensures MulWords(AsWritten, xs, ys) == Val(xs) * Val(ys)
  {
    var k := |ys|;
    TakeAll(ys);
    assert ys[k..] == [];
    ShortExact(AsWritten, Normed(xs[..k]), ys[k..]);
    ValEmpty(ys[k..]);
    NothingRight(Val(xs[..k]) * Val(ys), k);
    if |xs| > k { ShortSums(xs, ys, k); }
    MulExact(AsWritten, xs, ys) by {
      hide Val, KaratsubaRight, AddRight, BlocksRight;
    }
  }

  // In particular if the lowest block is zero.
  lemma ShiftedShortExact(xs: seq<Word>, ys: seq<Word>)
    requires KARATSUBA_THRESHOLD <= |ys| <= |xs| && BlockLen(|ys|, KARATSUBA_THRESHOLD) == |ys| && Normal(ys)
    requires Val(xs[..|ys|]) == 0
    requires forall i :: |ys| <= i < |xs| && i % |ys| == 0 ==>
      NormLen(xs[i..Min(i + |ys|, |xs|)]) < KARATSUBA_THRESHOLD
    ensures MulWords(AsWritten, xs, ys) == Val(xs) * Val(ys)
  {
    hide MulWords, KaratsubaRight;
    ZeroRight(Val(ys), |ys|);
    ShortBlocksExact(xs, ys);
  }

  lemma {:induction false} ZeroRight(y: int, n: nat)
    ensures KaratsubaRight(0, y, n)
    decreases n
  {
    if !Direct(n) {
      var h := n / 2;
      var p := Pow(h);
      ZeroHalves(p);
      ZeroRight(y % p, h);
      ZeroRight(y / p, h);
      ZeroRight(Abs(y % p - y / p), h);
      ZeroRoom(y, h);
      Unfold(AsWritten, 0, y, n, h, 0, 0, y % p, y / p);
    }
  }

  lemma ZeroHalves(p: int)
    requires p > 0
    ensures 0 % p == 0 && 0 / p == 0
  {
    DivModUnique(0, p, 0, 0);
  }

  lemma ZeroRoom(y: int, h: nat)
    ensures RoomForCarries(0, y, h)
  {
    ZeroHalves(Pow(h));
    ZeroHalves(Pow(3 * h));
  }

  // Adding 0 is always right,
  lemma NothingRight(z: int, i: nat)
    ensures AddRight(z, 0, i)
  {
    var v := z / Pow(i);
    PowZero();
    DivModUnique(v, 1, v, 0);
  }

  // and so is adding a number that is no shorter than what stands above word i.
  lemma LongRight(z: int, t: int, i: nat, k: nat)
    requires 0 <= z < Pow(i) * Pow(k) && Pow(k) <= Pow(WordLen(t))
    ensures AddRight(z, t, i)
  {
    hide Pow, WordLen;
    var v, p := z / Pow(i), Pow(WordLen(t));
    DivBounds(z, Pow(i));
    assert Pow(i) * Pow(k) == Pow(k) * Pow(i);
    CancelLt(v, Pow(k), Pow(i));
    DivModUnique(v, p, 0, v);
  }

  lemma BlockRight(z: int, xi: int, y: int, i: nat, k: nat)
    requires 0 <= z < Pow(i) * Pow(k) && 0 <= xi && k > 0 && Pow(k - 1) <= y < Pow(k)
    ensures AddRight(z, xi * y, i)
  {
    if xi == 0 {
      NothingRight(z, i);
    } else {
      hide Pow, AddRight;
      MulMono(1, xi, y);
      LongerThan(xi * y, k);
      LongRight(z, xi * y, i, k);
    }
  }

  lemma LongerThan(t: int, k: nat)
    requires k > 0 && Pow(k - 1) <= t
    ensures Pow(k) <= Pow(WordLen(t))
  {
    AnyFits(t);
    var n := WordLen(t);
    if n < k { PowMono(n, k - 1); }
    PowMono(k, Max(n, k));
  }

  lemma AnyFits(t: int)
    requires t >= 0
    ensures t < Pow(WordLen(t))
    decreases t
  {
    if t > 0 {
      FewerWords(t);
      AnyFits(t / W);
      NextPow(WordLen(t / W));
    } else {
      PowZero();
    }
  }

  lemma {:induction false} ShortSums(xs: seq<Word>, ys: seq<Word>, i: nat)
    requires 0 < |ys| <= |xs| && |ys| <= i && i % |ys| == 0 && Normal(ys)
    requires forall j :: |ys| <= j < |xs| && j % |ys| == 0 ==>
      NormLen(xs[j..Min(j + |ys|, |xs|)]) < KARATSUBA_THRESHOLD
    ensures BlocksRight(xs, ys, |ys|, i)
    decreases |xs| + |ys| - i
  {
    if i < |xs| {
      var k := |ys|;
      var xi := xs[i..Min(i + k, |xs|)];
      NextMultiple(i, k);
      ShortSums(xs, ys, i + k);
      hide Val, Pow, AddRight, MulRight;
      ShortBlock(AsWritten, xi, ys[..k]);
      OneShortBlock(xs, ys, i, xi);
    }
  }

  lemma NextMultiple(i: nat, k: nat)
    requires k > 0 && i % k == 0
    ensures (i + k) % k == 0
  {
    assert i == i / k * k;
    assert (i / k + 1) * k == i / k * k + k;
    DivModUnique(i + k, k, i / k + 1, 0);
  }

  lemma OneShortBlock(xs: seq<Word>, ys: seq<Word>, i: nat, xi: seq<Word>)
    requires 0 < |ys| <= i < |xs| && Normal(ys) && NormLen(xi) < KARATSUBA_THRESHOLD
    requires xi == xs[i..Min(i + |ys|, |xs|)] && BlocksRight(xs, ys, |ys|, i + |ys|)
    ensures BlocksRight(xs, ys, |ys|, i)
  {
    hide Val, Pow, AddRight, MulRight, WordLen;
    var k := |ys|;
    var z, t := Val(xs[..i]) * Val(ys), Val(xi) * Val(ys);
    TakeAll(ys);
    assert ys[k..] == [];
    ShortBlock(AsWritten, xi, ys[..k]);
    ShortBlock(AsWritten, xi, ys[k..]);
    ShortBlock(AsWritten, xi, Normed(ys[..k]));
    ValEmpty(ys[k..]);
    ValBound(xs[..i]);
    ValBound(ys);
    ValBound(xi);
    NormalLow(ys);
    BothBelow(Val(xs[..i]), Val(ys), Pow(i), Pow(k));
    BlockRight(z, Val(xi), Val(ys), i, k);
    NothingRight(z + Pow(i) * t, i + k);
  }

  // ---- operands for which natMul goes wrong ---------------------------------------------------

  function Full(n: nat): (s: seq<Word>)
    ensures |s| == n
  {
    seq(n, i requires 0 <= i < n => W - 1)
  }

  // For two operands of the same even number of words, from 40 to 78, there is one level to get right.
  lemma MulExactIff(h: nat, xs: seq<Word>, ys: seq<Word>)
    requires 20 <= h < 40 && |xs| == |ys| == 2 * h
    ensures MulWords(AsWritten, xs, ys) == Val(xs) * Val(ys) <==> RoomForCarries(Val(xs), Val(ys), h)
    ensures MulRight(xs, ys) <==> RoomForCarries(Val(xs), Val(ys), h)
  {
    hide Val, Product, Pow, RoomForCarries, MulWords, MulRight, KaratsubaRight, BlockLen;
    EvenBlock(h, KARATSUBA_THRESHOLD);
    OneBlock(xs, ys);
    ValBound(xs);
    ValBound(ys);
    OneLevelExact(Val(xs), Val(ys), h);
  }

  lemma OneBlock(xs: seq<Word>, ys: seq<Word>)
    requires KARATSUBA_THRESHOLD <= |xs| == |ys| == BlockLen(|ys|, KARATSUBA_THRESHOLD)
    ensures MulWords(AsWritten, xs, ys) == Product(AsWritten, Val(xs), Val(ys), |ys|)
    ensures MulRight(xs, ys) <==> KaratsubaRight(Val(xs), Val(ys), |ys|)
  {
    hide Val, Product, KaratsubaRight, BlockLen, AddedAt, BlockValues;
    TakeAll(xs);
    TakeAll(ys);
  }

  // Such operands: 2h words W - 1, times h words W - 1 with 0 and h - 1 words W - 1 above
  lemma MulGoesWrong(h: nat)
    requires 20 <= h < 40
    ensures var xs, ys := Full(2 * h), Full(h) + ([0] + Full(h - 1));
      MulWords(AsWritten, xs, ys) != Val(xs) * Val(ys)
  {
    hide Val, Pow, MulWords, Full, RoomForCarries, Product, Direct;
    var xs, ys := Full(2 * h), Full(h) + ([0] + Full(h - 1));
    WrongWords(h);
    Shallow(h);
    KaratsubaGoesWrong(h, Val(xs), Val(ys));
    OneLevelExact(Val(xs), Val(ys), h);
    MulExactIff(h, xs, ys);
  }

  lemma Shallow(h: nat)
    requires 20 <= h < 40
    ensures Direct(h) && !Direct(2 * h)
  {}

  // Without the normalising of blocks it would be wrong for more operands: a number of h + a
  // significant words in 2h words, which karatsuba multiplies wrongly, and natMul as a block does not.
  lemma ShortButWrong(h: nat, a: nat, x: int, y: int)
    requires Direct(h) && !Direct(2 * h) && 2 <= a <= h
    requires var p := Pow(h); x == p * (Pow(a) - W + 1) - 1 && y == p * p - 1
    ensures 0 <= x < Pow(h) * Pow(a) && 0 <= y < Pow(2 * h) && Product(AsWritten, x, y, 2 * h) != x * y
  {
    var p, e := Pow(h), Pow(a) - W;
    PowTwice(h);
    PowWords(a);
    PowMono(a, h);
    assert W * W >= 2 * W;
    hide Pow, Product, RoomForCarries;
    ShortQuarter(x, y, p, e);
    OneLevelExact(x, y, h);
    RoomIs(x, y, h);
  }

  lemma ShortQuarter(x: int, y: int, p: int, e: int)
    requires 0 < e <= p - W && e % W == 0 && x == p * (e + 1) - 1 && y == p * p - 1
    ensures 0 <= x < p * (e + W) && x < p * p && 0 <= y < p * p
    ensures (x / p) * (y / p) / p == e - 1 && (e - 1) % W == W - 1
    ensures p * (p * p) > 0 && x * y / (p * (p * p)) == e
  {
    LowHigh(x, p, p - 1, e);
    LowHigh(y, p, p - 1, p - 1);
    assert e * (p - 1) == (p - e) + p * (e - 1);
    LowHigh(e * (p - 1), p, p - e, e - 1);
    DigitPair(e, p - 1, p);
    MulMono(1, p, p);
    MulMono(e + 1, e + W, p);
    assert (e + 1) * p == p * (e + 1) && (e + W) * p == p * (e + W);
    ShortTop(x, y, p, p * p, p * (p * p), e);
  }

  lemma ShortTop(x: int, y: int, p: int, b: int, t: int, e: int)
    requires b == p * p && t == p * b && p > 2 && 0 < e <= p - W && 0 <= x < b
    requires x == p * (e + 1) - 1 && y == b - 1
    ensures t > 0 && x * y / t == e
  {
    assert x * y == x * b - x;
    assert x * b == t * (e + 1) - b by { assert p * (e + 1) * b == (p * b) * (e + 1); }
    MulMono(3, p, b);
    MulMono(3, p, p);
    assert t * (e + 1) == t * e + t;
    LowHigh(x * y, t, t - b - x, e);
  }

  lemma WrongWords(h: nat)
    requires h > 0
    ensures Val(Full(2 * h)) == Pow(h) * Pow(h) - 1
    ensures Val(Full(h) + ([0] + Full(h - 1))) == Pow(h) - 1 + Pow(h) * (Pow(h) - W)
  {
    AllFull(2 * h);
    AllFull(h);
    AllFull(h - 1);
    hide Val, Pow, Full;
    PowTwice(h);
    NextPow(h - 1);
    ValAppend(Full(h), [0] + Full(h - 1));
    ZeroBelow(Full(h - 1));
  }

  lemma AllFull(n: nat)
    ensures Val(Full(n)) == Pow(n) - 1
  {
    hide Val, Pow;
    AllOnes(Full(n));
  }

  lemma ZeroBelow(s: seq<Word>)
    ensures Val([0] + s) == W * Val(s)
  {
    ValCons([0] + s);
    assert ([0] + s)[1..] == s;
  }
}
