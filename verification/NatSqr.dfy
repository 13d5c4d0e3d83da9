/** cmake/bigint/src/natmul.c, last part: squares from the diagonal and the doubled cross products. */
module Squaring {
  import opened Bits
  import opened Base
  import opened Nats
  import opened NatAddSub
  import opened MulBasic
  import opened Shift
  import opened Ripples
  import opened KaratsubaValue
  import opened MulValue
  import opened SqrValue
  import opened KaratsubaMul
  import opened Multiplication

  ghost function Sq(w: Word): int { w * w }

  // sum of s[i]^2 * W^(2i)
  ghost function Squares(s: seq<Word>): int {
    if |s| == 0 then 0
    else Squares(s[..|s| - 1]) + Sq(s[|s| - 1]) * Pow(2 * (|s| - 1))
  }

  // sum of s[i] * s[j] * W^(i+j) over i < j
  ghost function Cross(s: seq<Word>): int {
    if |s| == 0 then 0
    else Cross(s[..|s| - 1]) + Pow(|s| - 1) * (Val(s[..|s| - 1]) * s[|s| - 1])
  }

  lemma {:induction false} SquareIs(s: seq<Word>)
    ensures Val(s) * Val(s) == Squares(s) + 2 * Cross(s)
  {
    if |s| > 0 {
      var n := |s| - 1;
      SquareIs(s[..n]);
      PowAdd(n, n);
      ValPrefix(s, n);
      TakeAll(s);
      BinomialSquare(Val(s[..n]), s[n], Pow(n));
    }
  }

  lemma BinomialSquare(a: int, d: int, p: int)
    ensures (a + d * p) * (a + d * p) == a * a + 2 * (p * (a * d)) + (d * d) * (p * p)
  {
    assert (a + d * p) * (a + d * p) == a * a + 2 * (a * (d * p)) + (d * p) * (d * p);
    assert (d * p) * (d * p) == (d * d) * (p * p);
    assert a * (d * p) == p * (a * d);
  }

  // ---- the loop of basicSqr: z collects the squares, t the cross products -------------------

  ghost predicate Diagonal(zs: seq<Word>, xs: seq<Word>, i: nat) {
    i <= |xs| && |zs| == 2 * i && Val(zs) == Squares(xs[..i])
  }

  ghost predicate Triangle(ts: seq<Word>, xs: seq<Word>, i: nat) {
    1 <= i <= |xs| && |ts| == 2 * |xs| && ts[0] == 0 && Val(ts) == Cross(xs[..i])
    && forall k :: 2 * i - 1 <= k < |ts| ==> ts[k] == 0
  }

  lemma DiagonalStep(zs: seq<Word>, xs: seq<Word>, i: nat, lo: Word, hi: Word)
    requires i < |xs| && lo + W * hi == Sq(xs[i]) && Diagonal(zs, xs, i)
    ensures Diagonal(zs + [lo, hi], xs, i + 1)
  {
    hide Val, Pow, Squares, Sq;
    ValAppend(zs, [lo, hi]);
    TwoWords(lo, hi);
    SquaresStep(xs, i);
    Commute(Pow(2 * i), Sq(xs[i]));
  }

  lemma SquaresStep(xs: seq<Word>, i: nat)
    requires i < |xs|
    ensures Squares(xs[..i + 1]) == Squares(xs[..i]) + Sq(xs[i]) * Pow(2 * i)
  {
    assert xs[..i + 1][..i] == xs[..i];
  }

  lemma Commute(a: int, b: int)
    ensures a * b == b * a
  {}

  lemma TwoWords(lo: Word, hi: Word)
    ensures Val([lo, hi]) == lo + W * hi
  {
    ValCons([lo, hi]);
    assert [lo, hi][1..] == [hi];
    ValOne([hi]);
  }

  // t[i .. 2i] gains xs[..i] * xs[i], the carry goes to t[2i].
  lemma TriangleStep(t0: seq<Word>, t1: seq<Word>, xs: seq<Word>, i: nat, w: seq<Word>, c: Word)
    requires 1 <= i < |xs| && Triangle(t0, xs, i)
    requires Accumulated(w, c, t0[i..2 * i], xs[..i], xs[i])
    requires t1 == t0[..i] + (w + [c]) + t0[2 * i + 1..]
    ensures Triangle(t1, xs, i + 1)
  {
    hide Val, Pow, Cross;
    var rest := t0[2 * i + 1..];
    var w0 := t0[i..2 * i];
    assert t0 == t0[..i] + (w0 + [0]) + rest;
    ValSnoc(w0, 0);
    ValSnoc(w, c);
    ThreeParts(t0[..i], w0 + [0], rest);
    ThreeParts(t0[..i], w + [c], rest);
    AccumulatedMeans(w, c, w0, xs[..i], xs[i]);
    Shifted(Pow(i), Val(w0), Val(xs[..i]) * xs[i]);
    CrossStep(xs, i);
  }

  lemma CrossStep(xs: seq<Word>, i: nat)
    requires i < |xs|
    ensures Cross(xs[..i + 1]) == Cross(xs[..i]) + Pow(i) * (Val(xs[..i]) * xs[i])
  {
    assert xs[..i + 1][..i] == xs[..i];
  }

  lemma AccumulatedMeans(w: seq<Word>, c: int, w0: seq<Word>, xs: seq<Word>, y: int)
    requires Accumulated(w, c, w0, xs, y)
    ensures Val(w) + c * Pow(|w|) == Val(w0) + Val(xs) * y && |w| == |w0|
  {}

  lemma ThreeParts(a: seq<Word>, b: seq<Word>, c: seq<Word>)
    ensures Val(a + b + c) == Val(a) + Pow(|a|) * Val(b) + Pow(|a| + |b|) * Val(c)
  {
    ValAppend(a + b, c);
    ValAppend(a, b);
  }

  // Doubling t[1 .. 2n-1] with its outgoing bit in t[2n-1] doubles t.
  lemma Doubled(m: seq<Word>, w: seq<Word>, c: Word)
    requires |w| == |m| && Val(w) + c * Pow(|w|) == Val(m) * 2
    ensures Val([0] + (w + [c])) == 2 * Val([0] + (m + [0]))
  {
    hide Val, Pow;
    LeadingZero(w + [c]);
    LeadingZero(m + [0]);
    ValSnoc(m, 0);
    ValSnoc(w, c);
  }

  lemma LeadingZero(s: seq<Word>)
    ensures Val([0] + s) == W * Val(s)
  {
    ValCons([0] + s);
    assert ([0] + s)[1..] == s;
  }

  // ---- basicSqr -----------------------------------------------------------------------------

  // Round i of the loop
  method SquareRow(z: Nat, t: Nat, x: Nat, i: nat, ghost xs: seq<Word>)
    requires InBounds(z) && InBounds(t) && InBounds(x) && 1 <= i < x.len && 2 * x.len <= z.len && t.len == 2 * x.len
    requires t.data != z.data && t.data != x.data && Disjoint(z, 2 * x.len, x, x.len)
    requires xs == Words(x) && Diagonal(Block(z, 0, 2 * i), xs, i) && Triangle(Words(t), xs, i)
    modifies z.data, t.data
    ensures OnlyWithin(z.data, z.off + 2 * i, z.off + 2 * i + 2)
    ensures OnlyWithin(t.data, t.off, t.off + t.len)
    ensures Diagonal(Block(z, 0, 2 * (i + 1)), xs, i + 1) && Triangle(Words(t), xs, i + 1)
  {
    hide Diagonal, Triangle;
    SquareDigit(z, x, i, xs);
    assert Words(x) == xs;
    CrossRow(t, x, i, xs);
  }

  method SquareDigit(z: Nat, x: Nat, i: nat, ghost xs: seq<Word>)
    requires InBounds(z) && InBounds(x) && 1 <= i < x.len && 2 * x.len <= z.len
    requires xs == Words(x) && Diagonal(Block(z, 0, 2 * i), xs, i)
    modifies z.data
    ensures OnlyWithin(z.data, z.off + 2 * i, z.off + 2 * i + 2)
    ensures Diagonal(Block(z, 0, 2 * (i + 1)), xs, i + 1)
  {
    hide Diagonal, Sq, U64Mul;
    var d := x.data[x.off + i];
    assert d == xs[i];
    ghost var zs := Block(z, 0, 2 * i);
    var p := U64Mul(d, d);
    SqIs(d, p.0, p.1);
    DiagonalStep(zs, xs, i, p.0, p.1);
    z.data[z.off + 2 * i] := p.0;
    z.data[z.off + 2 * i + 1] := p.1;
    assert Block(z, 0, 2 * (i + 1)) == zs + [p.0, p.1];
  }

  method CrossRow(t: Nat, x: Nat, i: nat, ghost xs: seq<Word>)
    requires InBounds(t) && InBounds(x) && 1 <= i < x.len && t.len == 2 * x.len && t.data != x.data
    requires xs == Words(x) && Triangle(Words(t), xs, i)
    modifies t.data
    ensures OnlyWithin(t.data, t.off, t.off + t.len)
    ensures Triangle(Words(t), xs, i + 1)
  {
    hide Triangle, Accumulated;
    var d: Word := x.data[x.off + i];
    assert d == xs[i];
    ghost var t0 := Words(t);
    TriangleSize(t0, xs, i);
    assert First(x, i) == xs[..i];
    ghost var w, c := AddRow(t, x, i, d);
    TriangleStep(t0, Words(t), xs, i, w, c);
  }

  // Line 213: the row's product goes to words i .. 2i, its carry to word 2i.
  method AddRow(t: Nat, x: Nat, i: nat, d: Word) returns (ghost w: seq<Word>, ghost carry: Word)
    requires InBounds(t) && InBounds(x) && 1 <= i < x.len && t.len == 2 * x.len && t.data != x.data
    modifies t.data
    ensures OnlyWithin(t.data, t.off, t.off + t.len)
    ensures var t0 := old(Words(t));
      && Accumulated(w, carry, t0[i..2 * i], First(x, i), d)
      && Words(t) == t0[..i] + (w + [carry]) + t0[2 * i + 1..]
  {
    hide Accumulated, Val, Pow;
    ghost var t0 := Words(t);
    RowInside(t, i);
    var c := AddMulVVW(Part(t, i, 2 * i), Part(x, 0, i), d);
    t.data[t.off + 2 * i] := c;
    w, carry := Block(t, i, i), c;
    RowInside(t, i);
    assert First(t, i) == t0[..i] && Block(t, 2 * i + 1, t.len - 2 * i - 1) == t0[2 * i + 1..];
  }

  // The words of t around the row i .. 2i
  lemma RowInside(t: Nat, i: nat)
    requires InBounds(t) && 2 * i < t.len
    ensures Block(t, i, i) == Words(t)[i..2 * i] == First(Part(t, i, 2 * i), i)
    ensures Words(t) == First(t, i) + (Block(t, i, i) + [t.data[t.off + 2 * i]])
                      + Block(t, 2 * i + 1, t.len - 2 * i - 1)
  {}

  lemma SqIs(d: Word, lo: Word, hi: Word)
    requires lo + W * hi == d * d
    ensures lo + W * hi == Sq(d)
  {}

  lemma TriangleSize(t0: seq<Word>, xs: seq<Word>, i: nat)
    requires Triangle(t0, xs, i)
    ensures |t0| == 2 * |xs| && i <= |xs|
  {}

  method BasicSqr(z: Nat, x: Nat)
    requires InBounds(z) && InBounds(x) && x.len > 0 && 2 * x.len <= z.len
    requires Disjoint(z, 2 * x.len, x, x.len)
    modifies z.data
    ensures OnlyWithin(z.data, z.off, z.off + 2 * x.len)
    ensures Val(Block(z, 0, 2 * x.len)) == old(Val(Words(x))) * old(Val(Words(x)))
  {
    hide Diagonal, Triangle, Val, Pow, Sq, U64Mul;
    var n := x.len;
    ghost var xs := Words(x);
    var t := NewLen(2 * n);
    SquareLoop(z, t, x);
    ghost var zs := Block(z, 0, 2 * n);
    DoubleAndAdd(z, t, n, xs, zs);
  }

  // The squares and the cross products
  method SquareLoop(z: Nat, t: Nat, x: Nat)
    requires InBounds(z) && InBounds(t) && InBounds(x) && x.len > 0 && 2 * x.len <= z.len && t.len == 2 * x.len
    requires t.data != z.data && t.data != x.data && Disjoint(z, 2 * x.len, x, x.len)
    requires forall k :: t.off <= k < t.off + t.len ==> t.data[k] == 0
    modifies z.data, t.data
    ensures OnlyWithin(z.data, z.off, z.off + 2 * x.len) && OnlyWithin(t.data, t.off, t.off + t.len)
    ensures Diagonal(Block(z, 0, 2 * x.len), old(Words(x)), x.len) && Triangle(Words(t), old(Words(x)), x.len)
  {
    hide Diagonal, Triangle, Sq, U64Mul;
    var n := x.len;
    ghost var xs := Words(x);
    var p := U64Mul(x.data[x.off], x.data[x.off]);
    SqIs(xs[0], p.0, p.1);
    DiagonalStart(xs, Block(z, 0, 0));
    DiagonalStep(Block(z, 0, 0), xs, 0, p.0, p.1);
    z.data[z.off] := p.0;
    z.data[z.off + 1] := p.1;
    assert Block(z, 0, 2) == [] + [p.0, p.1];
    TriangleStart(Words(t), xs);
    for i := 1 to n
      invariant OnlyWithin(z.data, z.off, z.off + 2 * n) && OnlyWithin(t.data, t.off, t.off + t.len)
      invariant Diagonal(Block(z, 0, 2 * i), xs, i) && Triangle(Words(t), xs, i)
    {
      assert Words(x) == xs;
      SquareRow(z, t, x, i, xs);
    }
  }

  lemma DiagonalStart(xs: seq<Word>, none: seq<Word>)
    requires |none| == 0
    ensures Diagonal(none, xs, 0) && none == []
  {
    ValEmpty(none);
  }

  lemma TriangleStart(ts: seq<Word>, xs: seq<Word>)
    requires |xs| > 0 && |ts| == 2 * |xs| && forall k :: 0 <= k < |ts| ==> ts[k] == 0
    ensures Triangle(ts, xs, 1)
  {
    ValZeros(ts);
    assert xs[..1][..0] == [];
  }

  // Lines 215-217: t is shifted left by one bit from its second word on and added to the squares.
  method DoubleAndAdd(z: Nat, t: Nat, n: nat, ghost xs: seq<Word>, ghost zs: seq<Word>)
    requires InBounds(z) && InBounds(t) && 0 < n && 2 * n <= z.len && t.len == 2 * n && t.data != z.data && |xs| == n
    requires zs == Block(z, 0, 2 * n) && Diagonal(zs, xs, n) && Triangle(Words(t), xs, n)
    modifies z.data, t.data
    ensures OnlyWithin(z.data, z.off, z.off + 2 * n)
    ensures Val(Block(z, 0, 2 * n)) == Val(xs) * Val(xs)
  {
    hide Val, Pow, Diagonal, Triangle, AddsTo, Cross, Squares;
    ghost var t0 := Words(t);
    TriangleEnd(t0, xs);
    ghost var m := Block(t, 1, 2 * n - 2);
    assert t0 == [0] + (m + [0]);
    ghost var w, c := DoubleTriangle(t, n, m);
    var carry := AddVV(z, z, t);
    SquareSum(Block(z, 0, 2 * n), carry, zs, [0] + (w + [c]), xs);
  }

  // The shift of lines 215-216
  method DoubleTriangle(t: Nat, n: nat, ghost m: seq<Word>) returns (ghost w: seq<Word>, ghost c: Word)
    requires InBounds(t) && 0 < n && t.len == 2 * n && Words(t) == [0] + (m + [0])
    modifies t.data
    ensures OnlyWithin(t.data, t.off, t.off + 2 * n)
    ensures Words(t) == [0] + (w + [c]) && Val([0] + (w + [c])) == 2 * Val([0] + (m + [0]))
  {
    hide Val, Pow;
    Pow2One();
    ghost var t0 := Words(t);
    var t1 := Part(t, 1, 2 * n - 1);
    assert Words(t1) == t0[1..2 * n - 1] == m;
    var top := ShlVU(t1, t1, 1);
    w, c := Words(t1), top;
    assert t.data[t.off] == t0[0] == 0;
    t.data[t.off + 2 * n - 1] := top;
    assert Words(t1) == w;
    assert Words(t) == [0] + (w + [c]) by {
      Framed(Words(t), w, c);
    }
    Doubled(m, w, c);
  }

  lemma Framed(s: seq<Word>, w: seq<Word>, c: Word)
    requires |s| == |w| + 2 && s[0] == 0 && s[1..|w| + 1] == w && s[|w| + 1] == c
    ensures s == [0] + (w + [c])
  {
    assert s == [s[0]] + (s[1..|w| + 1] + [s[|w| + 1]]);
  }

  lemma TriangleEnd(ts: seq<Word>, xs: seq<Word>)
    requires Triangle(ts, xs, |xs|)
    ensures |ts| == 2 * |xs| && ts[0] == 0 && ts[|ts| - 1] == 0 && Val(ts) == Cross(xs)
  {
    TakeAll(xs);
  }

  // The sum is the square, so nothing is carried out of 2n words.
  lemma SquareSum(s: seq<Word>, carry: Word, zs: seq<Word>, ts: seq<Word>, xs: seq<Word>)
    requires Diagonal(zs, xs, |xs|) && Val(ts) == 2 * Cross(xs)
    requires AddsTo(s, carry, zs, ts)
    ensures Val(s) == Val(xs) * Val(xs) && carry == 0
  {
    hide Val, Pow, Squares, Cross;
    TakeAll(xs);
    SquareIs(xs);
    ValBound(s);
    ValBound(xs);
    PowAdd(|xs|, |xs|);
    SumValue(s, carry, zs, ts);
    ProductFits(Val(xs), Val(xs), Pow(|xs|));
    CarriesNothing(Val(s), carry, Pow(|s|), Val(xs) * Val(xs));
  }

  lemma CarriesNothing(s: int, c: int, p: int, total: int)
    requires s + c * p == total && 0 <= s && 0 <= total < p && c >= 0
    ensures c == 0 && s == total
  {
    CancelLt(c, 1, p);
  }

  // ---- karatsubaSqr ---------------------------------------------------------------------------

  const BASIC_SQR_THRESHOLD := 20

  // z[0 .. 2n] becomes what karatsubaSqr computes of x; the other words of z[0 .. 6n] are scratch space.
  method KaratsubaSqr(z: Nat, x: Nat, how: Ripple)
    requires InBounds(z) && InBounds(x) && 0 < x.len && 6 * x.len <= z.len && Disjoint(z, 6 * x.len, x, x.len)
    modifies z.data
    ensures OnlyWithin(z.data, z.off, z.off + 6 * x.len)
    ensures Val(Block(z, 0, 2 * x.len)) == Square(how, old(Val(Words(x))), x.len)
    decreases x.len, 3
  {
    hide Val, Pow, Combination;
    var n := x.len;
    if n % 2 != 0 || n < KARATSUBA_SQR_THRESHOLD || n < 2 {
      BasicSqr(Part(z, 0, 2 * n), x);
      PartBlock(z, 0, 2 * n, 0, 2 * n);
    } else {
      KaratsubaSqrEven(z, x, n / 2, how);
    }
  }

  method KaratsubaSqrEven(z: Nat, x: Nat, h: nat, how: Ripple)
    requires InBounds(z) && InBounds(x) && x.len == 2 * h && 12 * h <= z.len && Disjoint(z, 12 * h, x, x.len)
    requires !DirectSqr(2 * h)
    modifies z.data
    ensures OnlyWithin(z.data, z.off, z.off + 12 * h)
    ensures Val(Block(z, 0, 4 * h)) == Square(how, old(Val(Words(x))), 2 * h)
    decreases 2 * h, 2
  {
    hide Val, Pow, Combination, Square;
    ghost var xs := Words(x);
    HalfSquares(z, x, h, how);
    ghost var w0, w1 := Block(z, 0, 2 * h), Block(z, 2 * h, 2 * h);
    assert Words(x) == xs;
    BlocksOfWords(x, h);
    DifferenceSquare(z, x, h, how);
    assert Block(z, 0, 2 * h) == w0 && Block(z, 2 * h, 2 * h) == w1;
    HalfValues(xs, h);
    UnfoldSquare(how, Val(xs), 2 * h, h, Val(xs[..h]), Val(xs[h..]));
    Combine(z, h, false, how);
  }

  method HalfSquares(z: Nat, x: Nat, h: nat, how: Ripple)
    requires InBounds(z) && InBounds(x) && 0 < h && x.len == 2 * h && 12 * h <= z.len && Disjoint(z, 12 * h, x, x.len)
    modifies z.data
    ensures OnlyWithin(z.data, z.off, z.off + 12 * h)
    ensures var xs := old(Words(x));
      && Val(Block(z, 0, 2 * h)) == Square(how, Val(xs[..h]), h)
      && Val(Block(z, 2 * h, 2 * h)) == Square(how, Val(xs[h..]), h)
    decreases 2 * h, 1
  {
    hide Val, Pow, Square;
    ghost var xs := Words(x);
    HalvesOfWords(x, h);
    KaratsubaSqr(z, Part(x, 0, h), how);
    ghost var w0 := Block(z, 0, 2 * h);
    assert Words(x) == xs;
    HalvesOfWords(x, h);
    KaratsubaSqr(Part(z, 2 * h, z.len), Part(x, h, x.len), how);
    PartBlock(z, 2 * h, z.len, 0, 2 * h);
    assert Block(z, 0, 2 * h) == w0;
  }

  method DifferenceSquare(z: Nat, x: Nat, h: nat, how: Ripple)
    requires InBounds(z) && InBounds(x) && 0 < h && x.len == 2 * h && 12 * h <= z.len && Disjoint(z, 12 * h, x, x.len)
    modifies z.data
    ensures OnlyWithin(z.data, z.off + 4 * h, z.off + 12 * h)
    ensures var x0, x1 := old(Val(Block(x, 0, h))), old(Val(Block(x, h, h)));
      Val(Block(z, 6 * h, 2 * h)) == Square(how, Abs(x1 - x0), h)
    decreases 2 * h, 1
  {
    hide Val, Pow, Square;
    var neg := BlockDifference(z, 4 * h, h, x, h, 0);
    KaratsubaSqr(Part(z, 6 * h, z.len), Part(z, 4 * h, 5 * h), how);
    PartBlock(z, 6 * h, z.len, 0, 2 * h);
  }

  // ---- natSqr ---------------------------------------------------------------------------------

  method NatSqr(x: Nat, how: Ripple) returns (z: Nat)
    requires InBounds(x)
    ensures fresh(z.data) && InBounds(z) && Normal(Words(z)) && z.len <= 2 * x.len
    ensures Val(Words(z)) == SqrWords(how, Words(x))
    ensures how.Repaired? || SqrRight(Words(x)) ==> Val(Words(z)) == Val(Words(x)) * Val(Words(x))
    decreases x.len, 1, 0
  {
    hide Val, Pow, SqrRight, SqrWords;
    var n := x.len;
    SqrCases(how, Words(x));
    if n == 0 {
      z := NewLen(0);
      ValEmpty(Words(x));
      return;
    }
    if n >= KARATSUBA_SQR_THRESHOLD {
      z := SqrLong(x, how);
      return;
    }
    var p := NewLen(2 * n);
    if n == 1 {
      OneWordSquare(p, x);
    } else if n < BASIC_SQR_THRESHOLD {
      BasicMul(p, x, x);
      assert First(p, 2 * n) == Words(p);
    } else {
      BasicSqr(p, x);
      assert Block(p, 0, 2 * n) == Words(p);
    }
    z := NatNorm(p);
  }

  lemma SqrCases(how: Ripple, xs: seq<Word>)
    ensures |xs| < KARATSUBA_SQR_THRESHOLD ==> SqrWords(how, xs) == Val(xs) * Val(xs)
    ensures how.Repaired? || SqrRight(xs) ==> SqrWords(how, xs) == Val(xs) * Val(xs)
  {
    if how.Repaired? || SqrRight(xs) { SqrExact(how, xs); }
    hide Val, Square, AddedAt, SqrRight;
  }

  method OneWordSquare(z: Nat, x: Nat)
    requires InBounds(z) && InBounds(x) && x.len == 1 && z.len == 2 && z.data != x.data
    modifies z.data
    ensures Val(Words(z)) == Val(Words(x)) * Val(Words(x))
  {
    hide Val, Pow, U64Mul;
    ValOne(Words(x));
    var p := U64Mul(x.data[x.off], x.data[x.off]);
    z.data[z.off] := p.0;
    z.data[z.off + 1] := p.1;
    assert Words(z) == [p.0, p.1];
    TwoWords(p.0, p.1);
  }

  // Lines 275-293
  method SqrLong(x: Nat, how: Ripple) returns (z: Nat)
    requires InBounds(x) && KARATSUBA_SQR_THRESHOLD <= x.len
    ensures fresh(z.data) && InBounds(z) && Normal(Words(z)) && z.len <= 2 * x.len
    ensures Val(Words(z)) == SqrWords(how, Words(x))
    decreases x.len, 0, 2
  {
    hide Val, Pow, SqrWords;
    var p := SquareWords(x, how);
    z := NatNorm(p);
  }

  // The square in 2 * x.len words of a buffer that karatsubaSqr may use
  method SquareWords(x: Nat, how: Ripple) returns (p: Nat)
    requires InBounds(x) && KARATSUBA_SQR_THRESHOLD <= x.len
    ensures fresh(p.data) && InBounds(p) && p.len == 2 * x.len
    ensures Val(Words(p)) == SqrWords(how, Words(x))
    decreases x.len, 0, 1
  {
    hide Val, Pow, Square, SqrWords, SquareSums;
    var n := x.len;
    ghost var shift: nat;
    var k: nat;
    k, shift := KaratsubaLen(n, KARATSUBA_SQR_THRESHOLD);
    var w := NewLen(Max(6 * k, 2 * n));
    LowSquare(w, x, k, how);
    p := Part(w, 0, 2 * n);
    LongSquare(how, Words(x), k);
    if k < n {
      SquareCross(p, x, k, how);
    }
  }

  method LowSquare(w: Nat, x: Nat, k: nat, how: Ripple)
    requires InBounds(w) && InBounds(x) && w.data != x.data && 0 < k <= x.len && 6 * k <= w.len && 2 * x.len <= w.len
    modifies w.data
    ensures Val(First(w, 2 * x.len)) == Square(how, Val(Words(x)[..k]), k)
  {
    hide Val, Pow, Square;
    assert Words(Part(x, 0, k)) == Words(x)[..k];
    KaratsubaSqr(w, Part(x, 0, k), how);
    ghost var low := Block(w, 0, 2 * k);
    NatClear(Part(w, 2 * k, 2 * x.len));
    ghost var s := First(w, 2 * x.len);
    assert s[..2 * k] == low;
    ZeroTail(s, 2 * k);
  }

  method SquareCross(z: Nat, x: Nat, k: nat, how: Ripple)
    requires InBounds(z) && InBounds(x) && z.data != x.data && z.len == 2 * x.len && 0 < k < x.len
    modifies z.data
    ensures Val(Words(z)) == SquareSums(how, old(Val(Words(z))), Words(x), k)
    decreases x.len, 0, 0
  {
    hide Val, Pow, IsProduct, MulWords, SqrWords, AddedAt, SumExact, RawZero, MulRight, SqrRight;
    ghost var xs := Words(x);
    var x0 := NormedPart(x, 0, k);
    assert xs[0..k] == xs[..k];
    var x1 := Part(x, k, x.len);
    PartWords(x, k);
    var t := NatMul(x0, x1, how);
    ProductLen(t, MulWords(how, Words(x0), Words(x1)), x0.len + x1.len);
    AddAt(z, t, k, how);
    AddAt(z, t, k, how);
    var q := NatSqr(x1, how);
    AddAt(z, q, 2 * k, how);
  }
}
