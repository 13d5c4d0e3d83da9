/** The value karatsuba of cmake/bigint/src/natmul.c leaves for any two operands, with addVW and
    subVW as written or repaired, and when it is their product. */
module KaratsubaValue {
  import opened Bits
  import opened Nats
  import opened Ripples

  const KARATSUBA_THRESHOLD := 40

  // Operands of n words that go to the schoolbook product
  predicate Direct(n: nat) { n % 2 != 0 || n < KARATSUBA_THRESHOLD || n < 2 }

  function Abs(x: int): nat { if x < 0 then -x else x }

  // What the block at h holds before the three block additions
  function Before(a0: int, a1: int, p: int): int
    requires p > 0
  {
    a0 / p + p * a1
  }

  // Lines 123-134: from the products a0 and a1 of the low and of the high halves and the
  // signed product d of the differences
  function Combination(how: Ripple, a0: int, a1: int, d: int, plus: bool, h: nat): int {
    var p := Pow(h);
    var first := Added(how, Before(a0, a1, p), a0, 2 * h, h);
    var second := Added(how, first, a1, 2 * h, h);
    a0 % p + p * (if plus then Added(how, second, d, 2 * h, h) else Subtracted(how, second, d, 2 * h, h))
  }

  function Product(how: Ripple, x: int, y: int, n: nat): int
    decreases n
  {
    if Direct(n) then x * y
    else
      var h, p := n / 2, Pow(n / 2);
      var x0, x1, y0, y1 := x % p, x / p, y % p, y / p;
      Combination(how, Product(how, x0, y0, h), Product(how, x1, y1, h),
                  Product(how, Abs(x1 - x0), Abs(y0 - y1), h), (x1 < x0) == (y0 < y1), h)
  }

  // Word 0 of the top quarter of x1 * y1 has room for what the product carries into it.
  ghost predicate RoomForCarries(x: int, y: int, h: nat) {
    var p := Pow(h);
    var u := (x / p) * (y / p) / p;
    u % W + (x * y / Pow(3 * h) - u) < W
  }

  // Room on every level of the recursion
  ghost predicate KaratsubaRight(x: int, y: int, n: nat)
    decreases n
  {
    if Direct(n) then true
    else
      var h, p := n / 2, Pow(n / 2);
      var x0, x1, y0, y1 := x % p, x / p, y % p, y / p;
      && RoomForCarries(x, y, h)
      && KaratsubaRight(x0, y0, h) && KaratsubaRight(x1, y1, h) && KaratsubaRight(Abs(x1 - x0), Abs(y0 - y1), h)
  }

  // ---- the three block additions --------------------------------------------------------------

  lemma BeforeTop(a0: int, a1: int, p: int)
    requires p > 0 && 0 <= a0 < p * p && 0 <= a1 < p * p
    ensures p * p > 0 && Before(a0, a1, p) / (p * p) == a1 / p && Before(a0, a1, p) >= 0
  {
    MulMono(1, p, p);
    Split(a1, p);
    Split(a0, p);
    var q, low, u := a0 / p, a1 % p, a1 / p;
    assert 0 <= q < p by { DivBelow(a0, p); }
    assert p * a1 == p * low + (p * p) * u by { Assoc(p, low, u); }
    assert 0 <= p * low + q < p * p by { DigitPair(low, q, p); }
    LowHigh(Before(a0, a1, p), p * p, p * low + q, u);
    DivBounds(a1, p);
    MulMono(0, a1, p);
    assert p * a1 == a1 * p;
  }

  lemma Assoc(p: int, low: int, u: int)
    ensures p * (low + p * u) == p * low + (p * p) * u
  {}

  lemma DivBelow(a: int, p: int)
    requires p > 0 && 0 <= a < p * p
    ensures 0 <= a / p < p
  {
    DivBounds(a, p);
    CancelLt(a / p, p, p);
  }

  lemma DigitPair(a: int, b: int, p: int)
    requires 0 <= a < p && 0 <= b < p
    ensures 0 <= p * a + b < p * p
  {
    MulMono(0, a, p);
    MulMono(a + 1, p, p);
    assert (a + 1) * p == p * a + p && a * p == p * a;
  }

  lemma PowTwice(h: nat)
    ensures var p := Pow(h); Pow(2 * h) == p * p && Pow(3 * h) == p * (p * p)
  {
    PowAdd(h, h);
    PowAdd(h, 2 * h);
  }

  // Through the three additions the low 2h words are right, and the top ones are carried into.
  lemma CombinationRuns(how: Ripple, a0: int, a1: int, d: int, plus: bool, h: nat, v: int)
    requires var b := Pow(2 * h); 0 <= a0 < b && 0 <= a1 < b && 0 <= d < b
    requires var p := Pow(h); v == Before(a0, a1, p) + a0 + a1 + (if plus then d else -d) >= Before(a0, a1, p)
    ensures var p := Pow(h);
      exists z :: RunsTo(how, z, v, a1 / p, 2 * h, h) && Combination(how, a0, a1, d, plus, h) == a0 % p + p * z
  {
    var p, m := Pow(h), Before(a0, a1, Pow(h));
    PowTwice(h);
    BeforeTop(a0, a1, p);
    DivBelow(a1, p);
    hide Pow, RunsTo, Added, Subtracted;
    RunStart(how, m, 2 * h, h);
    var first := Added(how, m, a0, 2 * h, h);
    RunAdd(how, m, m, a1 / p, a0, 2 * h, h);
    var second := Added(how, first, a1, 2 * h, h);
    RunAdd(how, first, m + a0, a1 / p, a1, 2 * h, h);
    if plus {
      RunAdd(how, second, m + a0 + a1, a1 / p, d, 2 * h, h);
      assert RunsTo(how, Added(how, second, d, 2 * h, h), v, a1 / p, 2 * h, h);
    } else {
      DivOrder(m, v, p * p);
      RunSubtract(how, second, m + a0 + a1, a1 / p, d, 2 * h, h);
      assert RunsTo(how, Subtracted(how, second, d, 2 * h, h), v, a1 / p, 2 * h, h);
    }
  }

  // ---- one level ------------------------------------------------------------------------------

  lemma SignedProduct(a: int, b: int)
    ensures (if (a < 0) == (b < 0) then Abs(a) * Abs(b) else -(Abs(a) * Abs(b))) == a * b
  {
    assert (-a) * b == -(a * b) && a * (-b) == -(a * b) && (-a) * (-b) == a * b;
  }

  lemma CrossTerms(x0: int, x1: int, y0: int, y1: int)
    requires x0 >= 0 && x1 >= 0 && y0 >= 0 && y1 >= 0
    ensures x0 * y0 + x1 * y1 + (x1 - x0) * (y0 - y1) == x0 * y1 + x1 * y0
    ensures x0 * y1 + x1 * y0 >= 0
  {
    MulMono(0, x0, y1);
    MulMono(0, x1, y0);
  }

  lemma ProductFits(x: int, y: int, b: int)
    requires 0 <= x < b && 0 <= y < b
    ensures 0 <= x * y < b * b
  {
    MulMono(0, x, y);
    MulMono(x, b, y);
    MulMono(y + 1, b, b);
    assert (y + 1) * b == b * y + b;
  }

  // The intermediate sum a0 + a1 added at p stays below p^4.
  lemma SumFits(x0: int, x1: int, y0: int, y1: int, a0: int, a1: int, p: int)
    requires 0 <= x0 < p && 0 <= x1 < p && 0 <= y0 < p && 0 <= y1 < p
    requires a0 == x0 * y0 && a1 == x1 * y1
    ensures 0 <= a0 && 0 <= a1
    ensures a0 + p * (a0 + a1) + (p * p) * a1 < (p * p) * (p * p)
  {
    var g := p - 1;
    BelowSquare(x0, y0, g);
    BelowSquare(x1, y1, g);
    hide *;
    MulMono(a0 + a1, 2 * (g * g), p);
    MulMono(1, p, p);
    MulMono(a1, g * g, p * p);
    FourthPower(p, g, g * g, p * p);
    assert (a0 + a1) * p == p * (a0 + a1) && a1 * (p * p) == (p * p) * a1;
  }

  lemma BelowSquare(x: int, y: int, g: int)
    requires 0 <= x <= g && 0 <= y <= g
    ensures 0 <= x * y <= g * g
  {
    MulMono(0, x, y);
    MulMono(x, g, y);
    MulMono(y, g, g);
    assert g * y == y * g;
  }

  lemma FourthPower(p: int, g: int, s: int, b: int)
    requires p == g + 1 && p > 0 && s == g * g && b == p * p
    ensures s + 2 * s * p + s * b < b * b
  {
    var n := g * p + g;
    assert n == b - 1;
    assert n * n == (g * p) * (g * p) + 2 * (g * (g * p)) + s;
    assert (g * p) * (g * p) == s * b && g * (g * p) == s * p;
    assert b * b == (n + 1) * (n + 1) == n * n + 2 * n + 1;
    MulMono(1, p, p);
  }

  // (x0 + p x1) (y0 + p y1) from the three products
  lemma Assemble(x0: int, x1: int, y0: int, y1: int, a0: int, a1: int, mid: int, p: int)
    requires a0 == x0 * y0 && a1 == x1 * y1 && mid == x0 * y1 + x1 * y0 && p > 0
    ensures (x0 + p * x1) * (y0 + p * y1) == a0 % p + p * (Before(a0, a1, p) + mid)
  {
    Expand(x0, x1, y0, y1, p);
    Split(a0, p);
    Collect(a0 / p, a1, mid, p);
    assert p * mid == p * (x0 * y1) + p * (x1 * y0);
  }

  lemma Expand(x0: int, x1: int, y0: int, y1: int, p: int)
    ensures (x0 + p * x1) * (y0 + p * y1) == x0 * y0 + p * (x0 * y1) + p * (x1 * y0) + (p * p) * (x1 * y1)
  {}

  lemma Collect(q: int, a1: int, mid: int, p: int)
    ensures p * (q + p * a1 + mid) == p * q + (p * p) * a1 + p * mid
  {}

  lemma TopOfProduct(low: int, p: int, b: int, v: int)
    requires 0 <= low < p && v >= 0 && b == p * p && low + p * v < b * b
    ensures p * b > 0 && (low + p * v) / (p * b) == v / b && 0 <= v / b < p
  {
    MulMono(1, p, p);
    MulMono(1, p, b);
    LowHigh(low + p * v, p, low, v);
    assert p * v == v * p;
    MulMono(0, v, p);
    DivDiv(low + p * v, p, b);
    assert b * b == (p * b) * p by { MulAssoc(p, b, p); MulAssoc(p, p, b); }
    CancelLt(v, p * b, p);
    DivBounds(v, b);
    CancelLt(v / b, p, b);
  }

  lemma FewCarries(m: int, mid: int, b: int)
    requires b > 0 && 0 <= mid < 2 * b
    ensures (m + mid) / b <= m / b + 2
  {
    DivBounds(m, b);
    DivBounds(m + mid, b);
    var q := m / b;
    assert (q + 3) * b == q * b + 3 * b;
    CancelLt((m + mid) / b, q + 3, b);
  }

  lemma HalfBounds(x: int, p: int)
    requires p > 0 && 0 <= x < p * p
    ensures 0 <= x % p < p && 0 <= x / p < p && x == x % p + p * (x / p)
  {
    DivBelow(x, p);
    Split(x, p);
  }

  // The products of a karatsuba of x and y, and what the block at h should hold in the end
  lemma Products(x: int, y: int, p: int, x0: int, x1: int, y0: int, y1: int) returns (v: int)
    requires p > 0 && 0 <= x < p * p && 0 <= y < p * p
    requires x0 == x % p && x1 == x / p && y0 == y % p && y1 == y / p
    ensures 0 <= x0 * y0 < p * p && 0 <= x1 * y1 < p * p && 0 <= Abs(x1 - x0) * Abs(y0 - y1) < p * p
    ensures var d, m := Abs(x1 - x0) * Abs(y0 - y1), Before(x0 * y0, x1 * y1, p);
      v == m + x0 * y0 + x1 * y1 + (if (x1 < x0) == (y0 < y1) then d else -d) && m <= v
    ensures x * y == (x0 * y0) % p + p * v
    ensures v / (p * p) == x * y / (p * (p * p)) && v / (p * p) < p
    ensures 0 <= x1 * y1 / p && v / (p * p) - x1 * y1 / p < W
  {
    hide Before;
    HalfBounds(x, p);
    HalfBounds(y, p);
    AbsBelow(x0, x1, p);
    AbsBelow(y1, y0, p);
    ProductFits(x0, y0, p); ProductFits(x1, y1, p); ProductFits(Abs(x1 - x0), Abs(y0 - y1), p);
    ProductFits(x0, y1, p); ProductFits(x1, y0, p); ProductFits(x, y, p * p);
    CrossTerms(x0, x1, y0, y1);
    SignedProduct(x1 - x0, y0 - y1);
    MiddleAndTop(x * y, x0, x1, y0, y1, x0 * y0, x1 * y1, x0 * y1 + x1 * y0, p, p * p);
    v := Before(x0 * y0, x1 * y1, p) + (x0 * y1 + x1 * y0);
  }

  lemma MiddleAndTop(xy: int, x0: int, x1: int, y0: int, y1: int, a0: int, a1: int, mid: int, p: int, b: int)
    requires a0 == x0 * y0 && a1 == x1 * y1 && mid == x0 * y1 + x1 * y0 && p > 0 && b == p * p
    requires xy == (x0 + p * x1) * (y0 + p * y1) < b * b
    requires 0 <= a0 < b && 0 <= a1 < b && 0 <= mid < 2 * b
    ensures var v := Before(a0, a1, p) + mid;
      xy == a0 % p + p * v && v / b == xy / (p * b) && v / b < p && 0 <= a1 / p && v / b - a1 / p < W
  {
    var m := Before(a0, a1, p);
    Assemble(x0, x1, y0, y1, a0, a1, mid, p);
    BeforeTop(a0, a1, p);
    FewCarries(m, mid, b);
    Split(a0, p);
    hide Before;
    TopOfProduct(a0 % p, p, b, m + mid);
    DivBelow(a1, p);
  }

  // With exact products of the halves, karatsuba as written leaves x * y if and only if word 0
  // of the top quarter has room; a doubled borrow does no harm, for it undoes a doubled carry.
  lemma CombinationExact(how: Ripple, x: int, y: int, h: nat, x0: int, x1: int, y0: int, y1: int)
    requires h > 1 && 0 <= x < Pow(2 * h) && 0 <= y < Pow(2 * h)
    requires x0 == x % Pow(h) && x1 == x / Pow(h) && y0 == y % Pow(h) && y1 == y / Pow(h)
    ensures Combination(how, x0 * y0, x1 * y1, Abs(x1 - x0) * Abs(y0 - y1), (x1 < x0) == (y0 < y1), h) == x * y
            <==> how.Repaired? || RoomForCarries(x, y, h)
  {
    hide *;
    PowTwice(h);
    var v := Products(x, y, Pow(h), x0, x1, y0, y1);
    var d, plus := Abs(x1 - x0) * Abs(y0 - y1), (x1 < x0) == (y0 < y1);
    CombinationDone(how, x0 * y0, x1 * y1, d, plus, h, v);
    RoomIs(x, y, h);
  }

  lemma AbsBelow(a: int, b: int, p: int)
    requires 0 <= a < p && 0 <= b < p
    ensures 0 <= Abs(b - a) < p
  {}

  lemma RoomIs(x: int, y: int, h: nat)
    ensures var p := Pow(h);
      var u := (x / p) * (y / p) / p;
      RoomForCarries(x, y, h) <==> u % W + (x * y / Pow(3 * h) - u) < W
  {}

  lemma CombinationDone(how: Ripple, a0: int, a1: int, d: int, plus: bool, h: nat, v: int)
    requires var b := Pow(2 * h); 0 <= a0 < b && 0 <= a1 < b && 0 <= d < b
    requires var p := Pow(h); v == Before(a0, a1, p) + a0 + a1 + (if plus then d else -d) >= Before(a0, a1, p)
    requires h > 1 && 0 <= a1 / Pow(h) && v / Pow(2 * h) < Pow(h) && v / Pow(2 * h) - a1 / Pow(h) < W
    ensures var p := Pow(h);
      Combination(how, a0, a1, d, plus, h) == a0 % p + p * v
      <==> how.Repaired? || a1 / p % W + (v / Pow(2 * h) - a1 / p) < W
  {
    hide Combination, Added, Subtracted, RunsTo, Pow;
    CombinationRuns(how, a0, a1, d, plus, h, v);
    var p := Pow(h);
    var z :| RunsTo(how, z, v, a1 / p, 2 * h, h) && Combination(how, a0, a1, d, plus, h) == a0 % p + p * z;
    RunExact(how, z, v, a1 / p, 2 * h, h);
    SameMultiple(p, z, v, a0 % p);
  }

  // ---- all levels -----------------------------------------------------------------------------

  lemma Unfold(how: Ripple, x: int, y: int, n: nat, h: nat, x0: int, x1: int, y0: int, y1: int)
    requires !Direct(n) && h == n / 2
    requires x0 == x % Pow(h) && x1 == x / Pow(h) && y0 == y % Pow(h) && y1 == y / Pow(h)
    ensures n == 2 * h && 1 < h < n
    ensures Product(how, x, y, n) == Combination(how, Product(how, x0, y0, h), Product(how, x1, y1, h),
        Product(how, Abs(x1 - x0), Abs(y0 - y1), h), (x1 < x0) == (y0 < y1), h)
    ensures KaratsubaRight(x, y, n) <==>
      && RoomForCarries(x, y, h)
      && KaratsubaRight(x0, y0, h) && KaratsubaRight(x1, y1, h) && KaratsubaRight(Abs(x1 - x0), Abs(y0 - y1), h)
  {
    hide Combination, RoomForCarries, Pow;
  }

  // Right for all operands with the repaired ripple, and for those with room as written.
  lemma {:induction false} ProductExact(how: Ripple, x: int, y: int, n: nat)
    requires 0 <= x < Pow(n) && 0 <= y < Pow(n) && (how.Repaired? || KaratsubaRight(x, y, n))
    ensures Product(how, x, y, n) == x * y
    decreases n
  {
    if !Direct(n) {
      var h := n / 2;
      var p := Pow(h);
      var x0, x1, y0, y1 := x % p, x / p, y % p, y / p;
      Unfold(how, x, y, n, h, x0, x1, y0, y1);
      hide *;
      PowTwice(h);
      HalfBounds(x, p);
      HalfBounds(y, p);
      AbsBelow(x0, x1, p);
      AbsBelow(y1, y0, p);
      ProductExact(how, x0, y0, h);
      ProductExact(how, x1, y1, h);
      ProductExact(how, Abs(x1 - x0), Abs(y0 - y1), h);
      CombinationExact(how, x, y, h, x0, x1, y0, y1);
    }
  }

  // If the halves go to the schoolbook product, that is an if and only if.
  lemma OneLevelExact(x: int, y: int, h: nat)
    requires Direct(h) && !Direct(2 * h) && 0 <= x < Pow(2 * h) && 0 <= y < Pow(2 * h)
    ensures Product(AsWritten, x, y, 2 * h) == x * y <==> RoomForCarries(x, y, h)
    ensures KaratsubaRight(x, y, 2 * h) <==> RoomForCarries(x, y, h)
  {
    hide Pow, Combination, RoomForCarries;
    CombinationExact(AsWritten, x, y, h, x % Pow(h), x / Pow(h), y % Pow(h), y / Pow(h));
  }

  // ---- operands for which it goes wrong -------------------------------------------------------

  lemma PowWords(h: nat)
    requires h > 1
    ensures Pow(h) % W == 0 && Pow(h) >= W * W
  {
    NextPow(h - 1);
    NextPow(h - 2);
    MulMono(1, Pow(h - 2), W * W);
  }

  // 2h words W - 1, times h words W - 1 with the h words of W^h - W above: the top quarter of the
  // product of the high halves is W^h - W - 1, whose word 0 is W - 1, and one carry reaches it.
  lemma KaratsubaGoesWrong(h: nat, x: int, y: int)
    requires Direct(h) && !Direct(2 * h)
    requires var p := Pow(h); x == p * p - 1 && y == p - 1 + p * (p - W)
    ensures 0 <= x < Pow(2 * h) && 0 <= y < Pow(2 * h) && Product(AsWritten, x, y, 2 * h) != x * y
  {
    var p := Pow(h);
    PowTwice(h);
    PowWords(h);
    hide Pow;
    DigitPair(p - W, p - 1, p);
    WrongQuarter(x, y, p);
    OneLevelExact(x, y, h);
    RoomIs(x, y, h);
  }

  lemma WrongQuarter(x: int, y: int, p: int)
    requires p % W == 0 && p >= W * W && x == p * p - 1 && y == p - 1 + p * (p - W)
    ensures (x / p) * (y / p) / p == p - W - 1 && (p - W - 1) % W == W - 1
    ensures p * (p * p) > 0 && x * y / (p * (p * p)) == p - W
  {
    LowHigh(x, p, p - 1, p - 1);
    LowHigh(y, p, p - 1, p - W);
    assert (p - 1) * (p - W) == W + p * (p - W - 1);
    LowHigh((p - 1) * (p - W), p, W, p - W - 1);
    MulMono(1, p, p);
    MulMono(1, p, p * p);
    TopOfWrong(x, y, p, p * p, p * (p * p));
  }

  lemma TopOfWrong(x: int, y: int, p: int, b: int, t: int)
    requires p >= W * W && b == p * p && t == p * b && x == b - 1 && y == b - (W - 1) * p - 1
    ensures t > 0 && x * y / t == p - W
  {
    MulMono(W * W, p, p);
    MulMono(W * W, p, b);
    TimesDifference(x, y, p, b, t);
    hide *;
    LowHigh(x * y, t, t - 2 * b + (W - 1) * p + 1, p - W);
  }

  lemma TimesDifference(x: int, y: int, p: int, b: int, t: int)
    requires b == p * p && t == p * b && x == b - 1 && y == b - (W - 1) * p - 1
    ensures x * y == t * (p - W) + t - 2 * b + (W - 1) * p + 1
  {
    assert b * b == t * p && b * p == t;
    assert (b - 1) * y == b * y - y;
    assert b * (b - (W - 1) * p - 1) == b * b - (W - 1) * (b * p) - b;
    assert t * (p - W) == t * p - W * t;
  }

  // x == W + p (p - 1) and y == 1 + p W, p == W^h: the second karatsubaAdd counts its carry twice and
  // stores a wrong sum, karatsubaSub its borrow, stores a wrong difference, and the product is right.
  lemma CarryAndBorrowCancel(h: nat, x: int, y: int)
    requires Direct(h) && !Direct(2 * h) && x == W + Pow(h) * (Pow(h) - 1) && y == 1 + Pow(h) * W
    ensures var p := Pow(h);
      var x0, x1, y0, y1 := x % p, x / p, y % p, y / p;
      var a0, a1, d := x0 * y0, x1 * y1, Abs(x1 - x0) * Abs(y0 - y1);
      var m := Before(a0, a1, p);
      var first := Added(AsWritten, m, a0, 2 * h, h);
      var second := Added(AsWritten, first, a1, 2 * h, h);
      && first == m + a0 && second != first + a1 && (x1 < x0) != (y0 < y1)
      && Subtracted(AsWritten, second, d, 2 * h, h) != second - d
    ensures Product(AsWritten, x, y, 2 * h) == x * y
  {
    hide *;
    var p := Pow(h);
    PowTwice(h);
    Deep(h);
    PowWords(h);
    TheirParts(x, y, p);
    OneLevelExact(x, y, h);
    RoomIs(x, y, h);
    var b, m := p * p, Before(W, (p - 1) * W, p);
    BeforeThem(m, p, b);
    SmallSum(m, b - p * W, W - 1, W, h, b);
    FullSum(m + W, b - p * W + W, W - 1, (p - 1) * W, h, b);
    TooLarge(m, p, h, b);
    DifferenceFits(p, b);
    EmptyDifference(b * RippleUp(W - 1, h, 1, 0), RippleUp(W - 1, h, 1, 0), (p - 1 - W) * (W - 1), h, b);
  }

  lemma Deep(h: nat)
    requires !Direct(2 * h)
    ensures h > 1
  {}

  // The halves, their products, and the top quarters
  lemma TheirParts(x: int, y: int, p: int)
    requires p >= W * W && p % W == 0 && x == W + p * (p - 1) && y == 1 + p * W
    ensures 0 <= x < p * p && 0 <= y < p * p
    ensures x % p == W && x / p == p - 1 && y % p == 1 && y / p == W
    ensures Abs(x / p - x % p) * Abs(y % p - y / p) == (p - 1 - W) * (W - 1)
    ensures (x / p) * (y / p) / p == W - 1 && (W - 1) % W == W - 1
    ensures p * (p * p) > 0 && x * y / (p * (p * p)) == W - 1
  {
    LowHigh(x, p, W, p - 1);
    LowHigh(y, p, 1, W);
    DigitPair(p - 1, W, p);
    DigitPair(W, 1, p);
    TopOfRight(x, y, p, p * p);
    assert (p - 1) * W == p * (W - 1) + (p - W);
    LowHigh((p - 1) * W, p, p - W, W - 1);
  }

  lemma TopOfRight(x: int, y: int, p: int, b: int)
    requires p >= W * W && b == p * p && x == W + p * (p - 1) && y == 1 + p * W
    ensures p * b > 0 && x * y / (p * b) == W - 1
  {
    MulMono(W * W, p, p);
    MulMono(W * W, p, b);
    var t := p * b;
    TimesSum(x, y, p, b, t);
    hide *;
    LowHigh(x * y, t, t - (W - 1) * b + (W * W - 1) * p + W, W - 1);
  }

  lemma TimesSum(x: int, y: int, p: int, b: int, t: int)
    requires b == p * p && t == p * b && x == W + b - p && y == 1 + p * W
    ensures x * y == W + b - p + W * (W * p + t - b)
  {
    assert p * (W + b - p) == W * p + p * b - p * p;
    assert x * (1 + p * W) == x + W * (p * x);
  }

  lemma DifferenceFits(p: int, b: int)
    requires p >= W * W && b == p * p
    ensures 0 < (p - 1 - W) * (W - 1) < b
  {
    ProductFits(p - 1 - W, W - 1, p);
    MulMono(1, p - 1 - W, W - 1);
  }

  lemma BeforeThem(m: int, p: int, b: int)
    requires p >= W * W && b == p * p && m == Before(W, (p - 1) * W, p)
    ensures 0 <= b - p * W < b - W && m == (b - p * W) + b * (W - 1) && (p - 1) * W == p * W - W
  {
    MulMono(W * W, p, p);
    DivModUnique(W, p, 0, W);
    assert p * (p * W - W) == b * W - p * W;
  }

  lemma TooLarge(m: int, p: int, h: nat, b: int)
    requires h > 1 && p > 0 && b == p * p > 0 && m == (b - p * W) + b * (W - 1)
    ensures RippleUp(W - 1, h, 1, 0) % W == 0 && b * RippleUp(W - 1, h, 1, 0) != m + W + (p * W - W)
  {
    LeavesWord(W - 1, h);
    hide *;
    SameMultiple(b, RippleUp(W - 1, h, 1, 0), W, 0);
  }

  lemma SmallSum(z: int, low: int, u: int, x: int, h: nat, b: int)
    requires b == Pow(2 * h) && 0 <= low && x >= 0 && low + x < b && z == low + b * u
    ensures Added(AsWritten, z, x, 2 * h, h) == z + x
  {
    AddedParts(AsWritten, low + x, 0, low, u, z, x, 2 * h, h);
  }

  lemma FullSum(z: int, low: int, u: int, x: int, h: nat, b: int)
    requires b == Pow(2 * h) && 0 <= low < b && low + x == b && z == low + b * u
    ensures Added(AsWritten, z, x, 2 * h, h) == b * RippleUp(u, h, 1, 0)
  {
    AddedParts(AsWritten, 0, 1, low, u, z, x, 2 * h, h);
  }

  lemma EmptyDifference(z: int, r: int, d: int, h: nat, b: int)
    requires b == Pow(2 * h) && 0 < d < b && h > 1 && z == b * r && r % W == 0
    ensures Subtracted(AsWritten, z, d, 2 * h, h) != z - d
  {
    SubtractedParts(AsWritten, b - d, 1, 0, r, z, d, 2 * h, h);
    var r' := RippleDown(r, h, 1, 0);
    BorrowLeavesWord(r, h);
    hide *;
    assert b * (r - 1) == b * r - b;
    SameMultiple(b, r', r - 1, b - d);
  }
}
