/** cmake/bigint/src/natdiv.c, first part: division by one word through a reciprocal. */
module WordDiv {
  import opened Bits
  import opened Base
  import opened Nats

  // m + W is the integer reciprocal floor((W^2 - 1) / d) of d.
  ghost predicate IsReciprocal(m: Word, d: Word) {
    (m + W) * d <= W * W - 1 < (m + W + 1) * d
  }

  // y shifted left until its top bit is set
  function Normalised(y: Word): (d: Word)
    requires y > 0
    ensures d >= TOP && d == y * Pow2(Nlz(y))
  {
    Normalises(y);
    Shl(y, Nlz(y))
  }

  method ReciprocalWord(d1: Word) returns (m: Word)
    requires d1 > 0
    ensures IsReciprocal(m, Normalised(d1))
  {
    hide Normalised, Nlz;
    Normalises(d1);
    var s := LeadingZeros64(d1);
    var u := Shl(d1, s);
    NormalisedIs(d1);
    var rem: Word;
    m, rem := U64Div(BitNot(u), W - 1, u);
    ReciprocalOf(m, u, rem);
  }

  lemma NormalisedIs(y: Word)
    requires y > 0
    ensures Nlz(y) < 64 && Normalised(y) == Shl(y, Nlz(y)) == y * Pow2(Nlz(y))
  {
    Normalises(y);
  }

  lemma ReciprocalOf(m: Word, u: Word, rem: Word)
    requires m * u + rem == (W - 1 - u) * W + (W - 1) && rem < u
    ensures IsReciprocal(m, u)
  {
    assert (m + W) * u == m * u + W * u;
    assert (m + W + 1) * u == m * u + W * u + u;
  }

  // The first guess floor(((m + W) * x1 + x0) / W) is never high, and low by at most 2.
  lemma GuessBounds(x1: int, x0: int, d: int, m: int, qq: int)
    requires TOP <= d < W && 0 <= x1 < d && 0 <= x0 < W && 0 <= m < W && IsReciprocal(m, d)
    requires qq * W <= (m + W) * x1 + x0 < qq * W + W
    ensures 0 <= x1 * W + x0 - qq * d
    ensures x1 * W + x0 - qq * d < 3 * d && x1 * W + x0 - qq * d - d < W
  {
    var v := m + W;
    GuessNotHigh(x1, x0, d, v, qq);
    GuessNotLow(x1, x0, d, v, qq);
  }

  lemma GuessNotHigh(x1: int, x0: int, d: int, v: int, qq: int)
    requires 0 < d < W && 0 <= x1 && 0 <= x0 < W && v * d <= W * W - 1
    requires qq * W <= v * x1 + x0
    ensures qq * d <= x1 * W + x0
  {
    MulMono(qq * W, v * x1 + x0, d);
    assert (qq * W) * d == (qq * d) * W;
    assert (v * x1 + x0) * d == (v * d) * x1 + x0 * d;
    MulMono(v * d, W * W - 1, x1);
    MulMono(d, W, x0);
    assert x0 * d <= W * x0;
    assert (W * W - 1) * x1 == W * W * x1 - x1;
    assert (qq * d) * W <= W * W * x1 + W * x0;
  }

  lemma GuessNotLow(x1: int, x0: int, d: int, v: int, qq: int)
    requires TOP <= d < W && 0 <= x1 < d && 0 <= x0 < W && W * W - 1 < v * d + d
    requires v * x1 + x0 < qq * W + W
    ensures x1 * W + x0 - qq * d - d < W
    ensures x1 * W + x0 - qq * d - d < 2 * d
  {
    MulMono(v * x1 + x0 + 1, qq * W + W, d);
    assert (qq * W + W) * d == (qq * d + d) * W;
    assert (v * x1 + x0 + 1) * d == (v * d) * x1 + x0 * d + d;
    MulMono(W * W - d, v * d, x1);
    assert (W * W - d) * x1 == W * W * x1 - d * x1;
    var r := x1 * W + x0 - (qq * d + d);
    assert r * W <= d * x1 + x0 * W - x0 * d - d;
    MulMono(x1, d - 1, d);
    MulMono(x0, W - 1, W - d);
    assert x0 * (W - d) == x0 * W - x0 * d;
    assert (W - 1) * (W - d) == W * W - W - W * d + d;
    assert (d - 1) * d == d * d - d;
    assert r * W <= d * d - d + W * W - W - W * d;
    MulMono(d, W, d);
    assert r * W < W * W;
    assert r * W < 2 * d * W;
  }

  // divWW on operands already shifted so that d has its top bit set
  method DivNorm(x1: Word, x0: Word, d: Word, m: Word) returns (qq: Word, r0: Word)
    requires TOP <= d && x1 < d && IsReciprocal(m, d)
    ensures qq * d + r0 == x1 * W + x0 && r0 < d
  {
    hide IsReciprocal;
    var r1: Word;
    qq, r1, r0 := FirstGuess(x1, x0, d, m);
    if r1 != 0 {
      Correct(x1, x0, d, qq, r1, r0);
      qq := qq + 1;
      r0 := Sub64(r0, d);
    }
    if r0 >= d {
      CorrectAgain(x1, x0, d, qq, r0);
      qq := qq + 1;
      r0 := Sub64(r0, d);
    }
  }

  // The first guess of the quotient word, and the two words of its rest
  method FirstGuess(x1: Word, x0: Word, d: Word, m: Word) returns (qq: Word, r1: Word, r0: Word)
    requires TOP <= d && x1 < d && IsReciprocal(m, d)
    ensures r1 * W + r0 == x1 * W + x0 - qq * d
    ensures 0 <= x1 * W + x0 - qq * d < 3 * d && x1 * W + x0 - qq * d - d < W
  {
    hide *;
    qq := GuessWord(x1, x0, d, m);
    r1, r0 := RestWords(x1, x0, d, qq);
  }

  method GuessWord(x1: Word, x0: Word, d: Word, m: Word) returns (qq: Word)
    requires TOP <= d && x1 < d && IsReciprocal(m, d)
    ensures 0 <= x1 * W + x0 - qq * d < 3 * d && x1 * W + x0 - qq * d - d < W
  {
    hide U64Mul, U64Add, IsReciprocal;
    var t := U64Mul(m, x1);
    var c := U64Add(t.0, x0, 0);
    GuessFits(x1, x0, d, m, t.1 + c.1, c.0);
    var t1 := U64Add(t.1, x1, c.1);
    qq := t1.0;
    assert qq == t.1 + x1 + c.1;
  }

  method RestWords(x1: Word, x0: Word, d: Word, qq: Word) returns (r1: Word, r0: Word)
    requires 0 <= x1 * W + x0 - qq * d < 3 * d
    ensures r1 * W + r0 == x1 * W + x0 - qq * d
  {
    hide U64Mul, U64Sub;
    var dq := U64Mul(d, qq);
    var b := U64Sub(x0, dq.0, 0);
    var b1 := U64Sub(x1, dq.1, b.1);
    r0, r1 := b.0, b1.0;
    RemainderWords(x1, x0, d, qq, dq.0, dq.1, b.0, b.1, b1.0, b1.1);
  }

  // g is the high word of m * x1 + x0.
  lemma GuessFits(x1: Word, x0: Word, d: Word, m: Word, g: int, lo: Word)
    requires TOP <= d && x1 < d && IsReciprocal(m, d) && lo + W * g == m * x1 + x0
    ensures g + x1 < W
    ensures var qq := g + x1; 0 <= x1 * W + x0 - qq * d < 3 * d && x1 * W + x0 - qq * d - d < W
  {
    var qq := g + x1;
    assert (m + W) * x1 == m * x1 + W * x1;
    GuessBounds(x1, x0, d, m, qq);
    MulMono(x1 + 1, d, W);
    CancelLt(qq, W, d);
  }

  lemma RemainderWords(x1: Word, x0: Word, d: Word, qq: Word, dq0: Word, dq1: Word,
                       b0: Word, c0: Word, b1: Word, c1: Word)
    requires dq0 + W * dq1 == d * qq && c0 <= 1 && c1 <= 1
    requires b0 - W * c0 == x0 - dq0 && b1 - W * c1 == x1 - dq1 - c0
    requires 0 <= x1 * W + x0 - qq * d < 3 * W
    ensures b1 * W + b0 == x1 * W + x0 - qq * d
  {
    assert d * qq == qq * d;
    assert b1 * W + b0 - c1 * (W * W) == x1 * W + x0 - qq * d;
    CancelLt(c1, 1, W * W);
  }

  lemma Correct(x1: int, x0: int, d: int, qq: Word, r1: Word, r0: Word)
    requires TOP <= d < W && 0 <= x1 < d && 0 <= x0 < W
    requires r1 > 0 && r1 * W + r0 == x1 * W + x0 - qq * d
    requires x1 * W + x0 - qq * d < 3 * d && x1 * W + x0 - qq * d - d < W
    ensures qq + 1 < W
    ensures Sub64(r0, d) == x1 * W + x0 - (qq + 1) * d < 2 * d
  {
    assert (qq + 1) * d == qq * d + d;
    var k: int := r1;
    var r := k * W + r0 - d;
    assert 0 <= r < W;
    DivModUnique(r0 - d, W, -k, r);
    MulMono(x1 + 1, d, W);
    CancelLt(qq + 1, W, d);
  }

  lemma CorrectAgain(x1: int, x0: int, d: int, qq: Word, r0: Word)
    requires TOP <= d < W && 0 <= x1 < d && 0 <= x0 < W
    requires r0 >= d && r0 == x1 * W + x0 - qq * d
    ensures qq + 1 < W
    ensures Sub64(r0, d) == r0 - d == x1 * W + x0 - (qq + 1) * d
  {
    assert (qq + 1) * d == qq * d + d;
    SubFits(r0, d);
    MulMono(x1 + 1, d, W);
    CancelLt(qq + 1, W, d);
  }

  method DivWW(x1: Word, x0: Word, y: Word, m: Word) returns (qq: Word, r: Word)
    requires x1 < y && IsReciprocal(m, Normalised(y))
    ensures qq * y + r == x1 * W + x0 && r < y
  {
    hide BitOr, Pow2, Shl, Shr, Nlz, IsReciprocal, Normalised, JoinedHigh;
    var s := LeadingZeros64(y);
    NormalisedIs(y);
    var d: Word := y;
    var h: Word, l: Word := x1, x0;
    MulMono(x1, y, Pow2(s));
    ShlJoin(x1, x0, y, s);
    ShiftedPair(x1, x0, y, s);
    if s != 0 {
      h := BitOr(Shl(x1, s), Shr(x0, 64 - s));
      l := Shl(x0, s);
      d := Shl(y, s);
    } else {
      ShlNothing(x1);
      ShlNothing(x0);
      ShlNothing(y);
    }
    var r0: Word;
    qq, r0 := DivNorm(h, l, d, m);
    r := Shr(r0, s);
    ShrIsDiv(r0, s);
    Unscale(x1 * W + x0, qq, y, Pow2(s), r0);
  }

  lemma ShlNothing(x: Word)
    ensures Shl(x, 0) == x
  {
    NoWrap(x);
  }

  // ---- natDivWVW, natDivW ------------------------------------------------------------

  // The words i .. n of z are the quotient of (xn, x[i..]) by y; r is what is left.
  ghost predicate QuotientFrom(zs: seq<Word>, r: int, xn: int, xs: seq<Word>, y: int) {
    |zs| == |xs| && 0 <= r < y && Val(zs) * y + r == xn * Pow(|xs|) + Val(xs)
  }

  lemma QuotientStart(zs: seq<Word>, xs: seq<Word>, xn: Word, y: Word)
    requires |zs| == |xs| == 0 && xn < y
    ensures QuotientFrom(zs, xn, xn, xs, y)
  {}

  lemma QuotientStep(zs: seq<Word>, r: int, xn: int, xs: seq<Word>, i: nat, y: int, q: Word, r': int)
    requires i < |xs| && QuotientFrom(zs, r, xn, xs[i + 1..], y)
    requires q * y + r' == r * W + xs[i] && 0 <= r' < y
    ensures QuotientFrom([q] + zs, r', xn, xs[i..], y)
  {
    ValCons([q] + zs);
    ValCons(xs[i..]);
    assert ([q] + zs)[1..] == zs && xs[i..][1..] == xs[i + 1..];
    NextPow(|zs|);
    hide Val, Pow;
    LongDivision(Val(zs), r, xn, Pow(|zs|), Val(xs[i + 1..]), xs[i], y, q, r');
  }

  lemma LongDivision(zv: int, r: int, xn: int, p: int, xv: int, x: int, y: int, q: int, r': int)
    requires zv * y + r == xn * p + xv && q * y + r' == r * W + x
    ensures (q + W * zv) * y + r' == xn * (W * p) + (x + W * xv)
  {
    assert (q + W * zv) * y == q * y + W * (zv * y);
    assert xn * (W * p) == W * (xn * p);
  }

  method NatDivWVW(z: Nat, xn: Word, x: Nat, y: Word) returns (r: Word)
    requires InBounds(z) && InBounds(x) && z.len == x.len > 0 && z.data != x.data
    requires xn < y
    modifies z.data
    ensures OnlyWithin(z.data, z.off, z.off + z.len)
    ensures QuotientFrom(Words(z), r, xn, Words(x), y)
  {
    hide QuotientFrom;
    if x.len != 1 {
      r := DivideDown(z, xn, x, y);
    } else {
      ghost var xs := Words(x);
      QuotientStart([], xs[1..], xn, y);
      var q: Word;
      q, r := U64Div(xn, x.data[x.off], y);
      QuotientStep([], xn, xn, xs, 0, y, q, r);
      z.data[z.off] := q;
      assert Words(z) == [q] + [] && xs[0..] == xs;
    }
  }

  method DivideDown(z: Nat, xn: Word, x: Nat, y: Word) returns (r: Word)
    requires InBounds(z) && InBounds(x) && z.len == x.len && z.data != x.data
    requires xn < y
    modifies z.data
    ensures OnlyWithin(z.data, z.off, z.off + z.len)
    ensures QuotientFrom(Words(z), r, xn, Words(x), y)
  {
    hide QuotientFrom, Normalised, IsReciprocal;
    r := xn;
    ghost var xs := Words(x);
    var rec := ReciprocalWord(y);
    QuotientStart(z.data[z.off + z.len..z.off + z.len], xs[z.len..], xn, y);
    var i := z.len;
    while i > 0
      invariant 0 <= i <= z.len && r < y
      invariant OnlyWithin(z.data, z.off, z.off + z.len)
      invariant QuotientFrom(z.data[z.off + i..z.off + z.len], r, xn, xs[i..], y)
    {
      i := i - 1;
      ghost var zs, r1 := z.data[z.off + i + 1..z.off + z.len], r;
      var q: Word;
      q, r := DivWW(r, x.data[x.off + i], y, rec);
      QuotientStep(zs, r1, xn, xs, i, y, q, r);
      z.data[z.off + i] := q;
      assert z.data[z.off + i..z.off + z.len] == [q] + zs;
    }
    assert xs[0..] == xs;
  }

  // r0 is what *r held before; dividing by 1 or dividing nothing leaves it there.
  method NatDivW(x: Nat, y: Word, r0: Word) returns (q: Nat, r: Word)
    requires InBounds(x) && y != 0
    ensures InBounds(q) && Storage(q) && fresh(q.data)
    ensures y == 1 ==> Words(q) == Words(x) && r == r0
    ensures y > 1 && x.len == 0 ==> Words(q) == [0] && r == r0
    ensures y > 1 && x.len > 0 ==> Normal(Words(q)) && r < y && Val(Words(q)) * y + r == Val(Words(x))
    ensures Val(Words(q)) == Val(Words(x)) / y
  {
    hide Val, Pow;
    var m := x.len;
    r := r0;
    if y == 1 {
      q := NatDup(x);
      ByOne(Val(Words(x)));
      return;
    }
    ValBound(Words(x));
    if m == 0 {
      q := NewWord(0);
      ValOne(Words(q));
      ValEmpty(Words(x));
      return;
    }
    var z := NewLen(m);
    r := NatDivWVW(z, 0, x, y);
    DivModUnique(Val(Words(x)), y, Val(Words(z)), r);
    q := NatNorm(z);
  }

  lemma ByOne(x: int)
    ensures x / 1 == x
  {}

  method NatDup(x: Nat) returns (z: Nat)
    requires InBounds(x)
    ensures fresh(z.data) && InBounds(z) && z.cap == z.len == x.len && z.off == 0
    ensures Words(z) == Words(x)
  {
    z := NewLen(x.len);
    for i := 0 to x.len
      invariant First(z, i) == First(x, i)
    {
      z.data[i] := x.data[x.off + i];
    }
  }
}
