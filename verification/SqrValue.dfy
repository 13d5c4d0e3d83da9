/** The value natSqr of cmake/bigint/src/natmul.c returns for any operand, with addVW and subVW as
    written or repaired, and when it is the square. */
module SqrValue {
  import opened Bits
  import opened Nats
  import opened Ripples
  import opened KaratsubaValue
  import opened MulValue

  const KARATSUBA_SQR_THRESHOLD := 260

  // Operands of n words that go to basicSqr
  predicate DirectSqr(n: nat) { n % 2 != 0 || n < KARATSUBA_SQR_THRESHOLD || n < 2 }

  // karatsubaSqr
  function Square(how: Ripple, x: int, n: nat): int
    decreases n
  {
    if DirectSqr(n) then x * x
    else
      var h, p := n / 2, Pow(n / 2);
      Combination(how, Square(how, x % p, h), Square(how, x / p, h), Square(how, Abs(x / p - x % p), h), false, h)
  }

  ghost predicate KaratsubaSqrRight(x: int, n: nat)
    decreases n
  {
    if DirectSqr(n) then true
    else
      var h, p := n / 2, Pow(n / 2);
      && RoomForCarries(x, x, h)
      && KaratsubaSqrRight(x % p, h) && KaratsubaSqrRight(x / p, h) && KaratsubaSqrRight(Abs(x / p - x % p), h)
  }

  // As CombinationExact: the third product is that of the differences x1 - x0 and x0 - x1.
  lemma SquareCombination(how: Ripple, x: int, h: nat, x0: int, x1: int, d: int)
    requires h > 1 && 0 <= x < Pow(2 * h) && x0 == x % Pow(h) && x1 == x / Pow(h)
    requires d == Abs(x1 - x0) * Abs(x1 - x0)
    ensures Combination(how, x0 * x0, x1 * x1, d, false, h) == x * x <==> how.Repaired? || RoomForCarries(x, x, h)
  {
    hide Pow, Combination, Before, RoomForCarries;
    PowTwice(h);
    var v := Products(x, x, Pow(h), x0, x1, x0, x1);
    assert Abs(x0 - x1) == Abs(x1 - x0);
    CombinationDone(how, x0 * x0, x1 * x1, d, false, h, v);
    RoomIs(x, x, h);
  }

  lemma UnfoldSquare(how: Ripple, x: int, n: nat, h: nat, x0: int, x1: int)
    requires !DirectSqr(n) && h == n / 2 && x0 == x % Pow(h) && x1 == x / Pow(h)
    ensures n == 2 * h && 1 < h < n
    ensures Square(how, x, n)
         == Combination(how, Square(how, x0, h), Square(how, x1, h), Square(how, Abs(x1 - x0), h), false, h)
    ensures KaratsubaSqrRight(x, n) <==>
      && RoomForCarries(x, x, h)
      && KaratsubaSqrRight(x0, h) && KaratsubaSqrRight(x1, h) && KaratsubaSqrRight(Abs(x1 - x0), h)
  {
    hide Combination, RoomForCarries, Pow;
  }

  lemma {:induction false} SquareExact(how: Ripple, x: int, n: nat)
    requires 0 <= x < Pow(n) && (how.Repaired? || KaratsubaSqrRight(x, n))
    ensures Square(how, x, n) == x * x
    decreases n
  {
    if !DirectSqr(n) {
      var h := n / 2;
      var p := Pow(h);
      var x0, x1 := x % p, x / p;
      UnfoldSquare(how, x, n, h, x0, x1);
      hide *;
      PowTwice(h);
      HalfBounds(x, p);
      AbsBelow(x0, x1, p);
      SquareExact(how, x0, h);
      SquareExact(how, x1, h);
      SquareExact(how, Abs(x1 - x0), h);
      SquareCombination(how, x, h, x0, x1, Abs(x1 - x0) * Abs(x1 - x0));
    }
  }

  // If the halves go to basicSqr, that is an if and only if.
  lemma OneLevelSquare(x: int, h: nat)
    requires DirectSqr(h) && !DirectSqr(2 * h) && 0 <= x < Pow(2 * h)
    ensures Square(AsWritten, x, 2 * h) == x * x <==> RoomForCarries(x, x, h)
    ensures KaratsubaSqrRight(x, 2 * h) <==> RoomForCarries(x, x, h)
  {
    var x0, x1 := x % Pow(h), x / Pow(h);
    UnfoldSquare(AsWritten, x, 2 * h, h, x0, x1);
    assert Square(AsWritten, Abs(x1 - x0), h) == Abs(x1 - x0) * Abs(x1 - x0);
    hide Pow, Combination, RoomForCarries, Abs;
    SquareCombination(AsWritten, x, h, x0, x1, Abs(x1 - x0) * Abs(x1 - x0));
  }

  // ---- natSqr -------------------------------------------------------------------------------

  function SqrWords(how: Ripple, xs: seq<Word>): int
    decreases |xs|
  {
    if |xs| < KARATSUBA_SQR_THRESHOLD then Val(xs) * Val(xs)
    else
      var k := BlockLen(|xs|, KARATSUBA_SQR_THRESHOLD);
      var low := Square(how, Val(xs[..k]), k);
      if k == |xs| then low
      else
        BlockLenPositive(|xs|, KARATSUBA_SQR_THRESHOLD);
        var cross := MulWords(how, Normed(xs[..k]), xs[k..]);
        var once := AddedAt(how, low, cross, k, 2 * |xs|);
        var twice := AddedAt(how, once, cross, k, 2 * |xs|);
        AddedAt(how, twice, SqrWords(how, xs[k..]), 2 * k, 2 * |xs|)
  }

  ghost predicate SqrRight(xs: seq<Word>)
    decreases |xs|
  {
    if |xs| < KARATSUBA_SQR_THRESHOLD then true
    else
      var k := BlockLen(|xs|, KARATSUBA_SQR_THRESHOLD);
      BlockLenPositive(|xs|, KARATSUBA_SQR_THRESHOLD);
      var a, b, p := Val(xs[..k]), Val(xs[k..]), Pow(k);
      && KaratsubaSqrRight(a, k)
      && (k == |xs| ||
          (&& MulRight(Normed(xs[..k]), xs[k..]) && SqrRight(xs[k..])
           && AddRight(a * a, a * b, k) && AddRight(a * a + p * (a * b), a * b, k)
           && AddRight(a * a + p * (a * b) + p * (a * b), b * b, 2 * k)))
  }

  // x0^2 + 2 x0 x1 W^k + x1^2 W^2k, each sum below W^2n
  lemma SquareParts(xs: seq<Word>, k: nat)
    requires k <= |xs|
    ensures var a, b, p := Val(xs[..k]), Val(xs[k..]), Pow(k);
      && a * a + p * (a * b) + p * (a * b) + Pow(2 * k) * (b * b) == Val(xs) * Val(xs)
      && a * a + p * (a * b) < Pow(2 * |xs|) && a * a + p * (a * b) + p * (a * b) < Pow(2 * |xs|)
      && Val(xs) * Val(xs) < Pow(2 * |xs|)
  {
    hide Val, Pow;
    ValSplit(xs, k);
    ValBound(xs); ValBound(xs[..k]); ValBound(xs[k..]);
    PowAdd(k, k);
    PowAdd(|xs|, |xs|);
    ProductFits(Val(xs), Val(xs), Pow(|xs|));
    SquareAlgebra(Val(xs[..k]), Val(xs[k..]), Pow(k));
  }

  lemma SquareAlgebra(a: int, b: int, p: int)
    requires a >= 0 && b >= 0 && p > 0
    ensures a * a + p * (a * b) + p * (a * b) + (p * p) * (b * b) == (a + p * b) * (a + p * b)
    ensures p * (a * b) >= 0 && (p * p) * (b * b) >= 0
  {
    MulMono(0, a, b);
    MulMono(0, b, b);
    MulMono(0, a * b, p);
    MulMono(1, p, p);
    MulMono(0, b * b, p * p);
    assert (a + p * b) * (a + p * b) == a * a + 2 * (a * (p * b)) + (p * b) * (p * b);
    assert a * (p * b) == p * (a * b);
    assert (p * b) * (p * b) == (p * p) * (b * b);
    assert (b * b) * (p * p) == (p * p) * (b * b) && (a * b) * p == p * (a * b);
  }

  // Lines 281-291 on values
  ghost function SquareSums(how: Ripple, low: int, xs: seq<Word>, k: nat): int
    requires 0 < k <= |xs|
  {
    var cross := MulWords(how, Normed(xs[..k]), xs[k..]);
    var twice := AddedAt(how, AddedAt(how, low, cross, k, 2 * |xs|), cross, k, 2 * |xs|);
    AddedAt(how, twice, SqrWords(how, xs[k..]), 2 * k, 2 * |xs|)
  }

  lemma LongSquare(how: Ripple, xs: seq<Word>, k: nat)
    requires KARATSUBA_SQR_THRESHOLD <= |xs| && k == BlockLen(|xs|, KARATSUBA_SQR_THRESHOLD) && 0 < k
    ensures var low := Square(how, Val(xs[..k]), k);
      SqrWords(how, xs) == if k == |xs| then low else SquareSums(how, low, xs, k)
  {
    hide Val, Square, MulWords, AddedAt;
  }

  lemma RightParts(xs: seq<Word>, k: nat)
    requires KARATSUBA_SQR_THRESHOLD <= |xs| && k == BlockLen(|xs|, KARATSUBA_SQR_THRESHOLD) && SqrRight(xs)
    ensures var a, b, p := Val(xs[..k]), Val(xs[k..]), Pow(k);
      && KaratsubaSqrRight(a, k)
      && (k < |xs| ==>
          && MulRight(Normed(xs[..k]), xs[k..]) && SqrRight(xs[k..])
          && AddRight(a * a, a * b, k) && AddRight(a * a + p * (a * b), a * b, k)
          && AddRight(a * a + p * (a * b) + p * (a * b), b * b, 2 * k))
  {
    hide Val, Pow, KaratsubaSqrRight, MulRight, AddRight, BlockLen;
  }

  lemma {:induction false} SqrExact(how: Ripple, xs: seq<Word>)
    requires how.Repaired? || SqrRight(xs)
    ensures SqrWords(how, xs) == Val(xs) * Val(xs)
    decreases |xs|
  {
    hide Val, Pow, AddedAt, AddRight, MulWords, MulRight, Square, KaratsubaSqrRight, SqrRight, BlockLen;
    if |xs| >= KARATSUBA_SQR_THRESHOLD {
      var k := BlockLen(|xs|, KARATSUBA_SQR_THRESHOLD);
      BlockLenPositive(|xs|, KARATSUBA_SQR_THRESHOLD);
      hide SqrWords;
      ValBound(xs[..k]);
      LongSquare(how, xs, k);
      if how.AsWritten? { RightParts(xs, k); }
      SquareExact(how, Val(xs[..k]), k);
      if k == |xs| {
        TakeAll(xs);
      } else {
        MulExact(how, Normed(xs[..k]), xs[k..]);
        NormLenMeans(xs[..k]);
        SqrExact(how, xs[k..]);
        ThreeSums(how, xs, k);
      }
    }
  }

  // As written too, the square of fewer than 260 words is exact.
  lemma ShortSquareExact(how: Ripple, xs: seq<Word>)
    requires |xs| < KARATSUBA_SQR_THRESHOLD
    ensures SqrWords(how, xs) == Val(xs) * Val(xs) && SqrRight(xs)
  {
    hide Val, Square, AddedAt, MulWords, MulRight, KaratsubaSqrRight, AddRight, BlockLen;
  }

  // The additions of both cross products and of the square of the upper part
  lemma ThreeSums(how: Ripple, xs: seq<Word>, k: nat)
    requires k <= |xs|
    requires var a, b, p := Val(xs[..k]), Val(xs[k..]), Pow(k);
      how.Repaired? || (AddRight(a * a, a * b, k) && AddRight(a * a + p * (a * b), a * b, k)
                        && AddRight(a * a + p * (a * b) + p * (a * b), b * b, 2 * k))
    ensures var a, b, len := Val(xs[..k]), Val(xs[k..]), 2 * |xs|;
      AddedAt(how, AddedAt(how, AddedAt(how, a * a, a * b, k, len), a * b, k, len), b * b, 2 * k, len)
      == Val(xs) * Val(xs)
  {
    hide Val, Pow, AddRight, AddedAt;
    var a, b, p, len := Val(xs[..k]), Val(xs[k..]), Pow(k), 2 * |xs|;
    SquareParts(xs, k);
    NotNegative(xs[..k], xs[..k]); NotNegative(xs[..k], xs[k..]); NotNegative(xs[k..], xs[k..]);
    ScaledNotNegative(k, a * b);
    AddedAtExact(how, a * a, a * b, k, len);
    AddedAtExact(how, a * a + p * (a * b), a * b, k, len);
    AddedAtExact(how, a * a + p * (a * b) + p * (a * b), b * b, 2 * k, len);
  }

  // ---- operands for which natSqr goes wrong ---------------------------------------------------

  // h words W - 1 below, W^(h-1) + W^2 / 2 - 1 above: one carry reaches a word W - 1.
  lemma SquareGoesWrong(h: nat, x: int)
    requires DirectSqr(h) && !DirectSqr(2 * h) && x == Pow(h) - 1 + Pow(h) * (Pow(h - 1) + W * W / 2 - 1)
    ensures 0 <= x < Pow(2 * h) && Square(AsWritten, x, 2 * h) != x * x
  {
    hide *;
    AboveTen(h);
    PowTwice(h);
    LongPow(h);
    TopSquare(Pow(h - 2), Pow(h - 1), Pow(h), x, W, W * W / 2);
    OneLevelSquare(x, h);
    RoomIs(x, x, h);
  }

  lemma AboveTen(h: nat)
    requires !DirectSqr(2 * h)
    ensures h >= 10
  {}

  // Three powers of w next to each other, the least of them at least w^4
  ghost predicate Powers(f: int, g: int, p: int, w: int, d: int) {
    && w >= 2 && 2 * d == w * w && f >= w * w * (w * w) && f % w == 0
    && g == w * f && p == w * g
  }

  lemma LongPow(h: nat)
    requires h >= 10
    ensures Powers(Pow(h - 2), Pow(h - 1), Pow(h), W, W * W / 2)
  {
    hide Powers, Pow;
    NextPow(h - 1);
    NextPow(h - 2);
    NextPow(h - 3);
    FourWords(h - 2);
    LowDigit(0, Pow(h - 3));
    PowersIs(Pow(h - 2), W);
  }

  lemma FourWords(n: nat)
    requires n >= 4
    ensures Pow(n) >= W * W * (W * W)
  {
    assert Pow(4) == W * W * (W * W);
    PowMono(4, n);
  }

  lemma PowersIs(f: int, w: int)
    requires w >= 2 && w % 2 == 0 && f >= w * w * (w * w) && f % w == 0
    ensures Powers(f, w * f, w * (w * f), w, w * w / 2)
  {
    var k := w / 2;
    assert w * w == 2 * (k * w);
  }

  lemma TopSquare(f: int, g: int, p: int, x: int, w: int, d: int)
    requires Powers(f, g, p, w, d) && x == p - 1 + p * (g + d - 1)
    ensures 0 <= x < p * p && p * (p * p) > 0
    ensures var u := (x / p) * (x / p) / p; u % w == w - 1 && x * x / (p * (p * p)) == u + 1
  {
    Sizes(f, g, p, w, d);
    LowHigh(x, p, p - 1, g + d - 1);
    DigitPair(g + d - 1, p - 1, p);
    HighSquare(f, g, p, w, d);
    OneBelow(f, w);
    hide *;
    LowHigh((g + d - 1) * (g + d - 1), p, p - 2 * g + (d - 1) * (d - 1), f + w - 1);
    MulMono(1, p, p);
    MulMono(1, p, p * p);
    assert x == p * (g + d) - 1 by { Shifted(p, g + d - 1, 1); }
    WholeSquare(f, p, g + d, w, d, x, p * p);
    ManyCarries(g, d, p, p * p);
    LowHigh(x * x, p * (p * p), (p * p) * (d * d) - 2 * (p * (g + d)) + 1, f + w);
  }

  lemma OneBelow(f: int, w: int)
    requires w >= 2 && f % w == 0
    ensures (f + w - 1) % w == w - 1
  {
    var k := f / w;
    assert f == k * w;
    assert (k * w + w - 1) == k * w + (w - 1);
    DivModUnique(f + w - 1, w, k, w - 1);
  }

  lemma Sizes(f: int, g: int, p: int, w: int, d: int)
    requires Powers(f, g, p, w, d)
    ensures d >= 2 && 4 * (d * d) <= f && 2 * f <= g && 2 * g <= p && 0 <= (d - 1) * (d - 1) <= d * d
  {
    MulMono(2, w, w);
    assert (2 * d) * (2 * d) == 4 * (d * d);
    MulMono(4, w * w, w * w);
    MulMono(2, w, f);
    MulMono(2, w, g);
    assert (d - 1) * (d - 1) == d * d - 2 * d + 1;
  }

  lemma HighSquare(f: int, g: int, p: int, w: int, d: int)
    requires 2 * d == w * w && g == w * f && p == w * g
    ensures (g + d) * (g + d) == p * (f + w) + d * d
    ensures (g + d - 1) * (g + d - 1) == p - 2 * g + (d - 1) * (d - 1) + p * (f + w - 1)
  {
    SumSquare(g, d, p, f, w) by {
      assert g * g == p * f by { MulAssoc(w, g, f); assert g * (w * f) == w * (g * f); }
      assert (2 * d) * g == p * w by { MulAssoc(w, w, g); assert w * p == p * w; }
    }
    hide *;
    OneLess(g + d);
    OneLess(d);
    Shifted(p, f + w - 1, 1);
  }

  lemma SumSquare(g: int, d: int, p: int, f: int, w: int)
    requires g * g == p * f && (2 * d) * g == p * w
    ensures (g + d) * (g + d) == p * (f + w) + d * d
  {
    assert (g + d) * (g + d) == g * g + (2 * d) * g + d * d;
    Shifted(p, f, w);
  }

  lemma OneLess(a: int)
    ensures (a - 1) * (a - 1) == a * a - 2 * a + 1
  {}

  lemma WholeSquare(f: int, p: int, y: int, w: int, d: int, x: int, b: int)
    requires y * y == p * (f + w) + d * d && x == p * y - 1 && b == p * p
    ensures x * x == (p * b) * (f + w) + b * (d * d) - 2 * (p * y) + 1
  {
    assert (p * y) * (p * y) == b * (y * y);
    assert b * (p * (f + w)) == (p * b) * (f + w);
    assert b * (p * (f + w) + d * d) == b * (p * (f + w)) + b * (d * d);
    assert (p * y - 1) * (p * y - 1) == (p * y) * (p * y) - 2 * (p * y) + 1;
  }

  lemma ManyCarries(g: int, d: int, p: int, b: int)
    requires d >= 2 && d * d <= g && 2 * g <= p && b == p * p
    ensures 0 <= b * (d * d) - 2 * (p * (g + d)) + 1 < p * b
  {
    AtLeastFour(d, p);
    Carries(d * d, g + d, p, b);
  }

  lemma AtLeastFour(d: int, p: int)
    requires d >= 2 && p >= 1
    ensures d * d >= 4 && d * d >= d && p * p > 0
  {
    MulMono(2, d, d);
    MulMono(1, p, p);
  }

  lemma Carries(e: int, s: int, p: int, b: int)
    requires e >= 4 && 0 < s <= 2 * p && e + 1 <= p && b == p * p > 0
    ensures 0 <= b * e - 2 * (p * s) + 1 < p * b
  {
    LowerPart(e, s, p, b);
    UpperPart(e, s, p, b);
  }

  lemma LowerPart(e: int, s: int, p: int, b: int)
    requires e >= 4 && 0 <= s <= 2 * p && b == p * p > 0
    ensures 2 * (p * s) <= b * e
  {
    MulMono(s, 2 * p, p);
    MulMono(4, e, b);
    assert s * p == p * s && e * b == b * e && 2 * p * p == 2 * b;
  }

  lemma UpperPart(e: int, s: int, p: int, b: int)
    requires e + 1 <= p && 0 <= s && b == p * p > 0 && p > 0 && s > 0
    ensures b * e - 2 * (p * s) + 1 < p * b
  {
    MulMono(e + 1, p, b);
    assert (e + 1) * b == b * e + b;
    MulMono(0, s, p);
    assert s * p == p * s;
  }

  // An even number of words from 260 to 518: one level to get right
  lemma SqrExactIff(h: nat, xs: seq<Word>)
    requires 130 <= h < 260 && |xs| == 2 * h
    ensures SqrWords(AsWritten, xs) == Val(xs) * Val(xs) <==> RoomForCarries(Val(xs), Val(xs), h)
    ensures SqrRight(xs) <==> RoomForCarries(Val(xs), Val(xs), h)
  {
    hide Val, Square, Pow, RoomForCarries, SqrWords, SqrRight, KaratsubaSqrRight, BlockLen;
    EvenBlock(h, KARATSUBA_SQR_THRESHOLD);
    OneBlock(xs);
    ValBound(xs);
    OneLevelSquare(Val(xs), h);
  }

  lemma OneBlock(xs: seq<Word>)
    requires KARATSUBA_SQR_THRESHOLD <= |xs| == BlockLen(|xs|, KARATSUBA_SQR_THRESHOLD)
    ensures SqrWords(AsWritten, xs) == Square(AsWritten, Val(xs), |xs|)
    ensures SqrRight(xs) <==> KaratsubaSqrRight(Val(xs), |xs|)
  {
    hide Val, Square, KaratsubaSqrRight, BlockLen, AddedAt;
    TakeAll(xs);
  }

  lemma SqrGoesWrong(h: nat, xs: seq<Word>)
    requires 130 <= h < 260 && |xs| == 2 * h
    requires Val(xs) == Pow(h) - 1 + Pow(h) * (Pow(h - 1) + W * W / 2 - 1)
    ensures SqrWords(AsWritten, xs) != Val(xs) * Val(xs)
  {
    hide Val, Square, Pow, RoomForCarries, SqrWords;
    SquareGoesWrong(h, Val(xs));
    OneLevelSquare(Val(xs), h);
    SqrExactIff(h, xs);
  }
}
