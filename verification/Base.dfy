/** cmake/bigint/src/base.c: double-word arithmetic on 64-bit words. */
module Base {
  import opened Bits

  // ---- Len64, LeadingZeros64 ----------------------------------------------

  function BitLen(x: nat): (n: nat) {
    if x == 0 then 0 else 1 + BitLen(x / 2)
  }

  lemma {:induction false} BitLenBounds(x: nat)
    ensures x < Pow2(BitLen(x))
    ensures x > 0 ==> BitLen(x) > 0 && Pow2(BitLen(x) - 1) <= x
  {
    if x > 0 {
      BitLenBounds(x / 2);
      assert BitLen(x) - 1 == BitLen(x / 2);
    }
  }

  lemma BitLenUnique(x: nat, n: nat)
    requires x < Pow2(n) && (n > 0 ==> Pow2(n - 1) <= x)
    ensures BitLen(x) == n
  {
    BitLenBounds(x);
    var m := BitLen(x);
    if m < n { Pow2Mono(m, n - 1); }
    if n < m { Pow2Mono(n, m - 1); }
  }

  lemma {:induction false} BitLenShr(x: nat, s: nat)
    requires x >= Pow2(s)
    ensures BitLen(x) == s + BitLen(x / Pow2(s))
  {
    if s == 0 {
      DivModUnique(x, 1, x, 0);
    } else {
      DivByPow2(x, s);
      BitLenShr(x / 2, s - 1);
    }
  }

  // len8tab, the bit length of a byte
  function Len8(x: nat): (n: nat)
    requires x < 256
  {
    if x < 1 then 0
    else if x < 2 then 1
    else if x < 4 then 2
    else if x < 8 then 3
    else if x < 16 then 4
    else if x < 32 then 5
    else if x < 64 then 6
    else if x < 128 then 7
    else 8
  }

  lemma Len8IsBitLen(x: nat)
    requires x < 256
    ensures Len8(x) == BitLen(x)
  {
    assert Pow2(0) == 1 && Pow2(1) == 2 && Pow2(2) == 4 && Pow2(3) == 8 && Pow2(4) == 16;
    assert Pow2(5) == 32 && Pow2(6) == 64 && Pow2(7) == 128 && Pow2(8) == 256;
    hide Pow2, BitLen;
    BitLenUnique(x, Len8(x));
  }

  method Len64(v: Word) returns (n: nat)
    ensures n == BitLen(v)
  {
    hide BitLen, Len8, Pow2;
    Pow2Consts();
    var x: nat := v;
    n := 0;
    if x >= HALF {
      BitLenShr(x, 32);
      x := Shr(x, 32);
      n := 32;
    }
    if x >= 0x1_0000 {
      BitLenShr(x, 16);
      x := Shr(x, 16);
      n := n + 16;
    }
    if x >= 0x100 {
      BitLenShr(x, 8);
      x := Shr(x, 8);
      n := n + 8;
    }
    Len8IsBitLen(x);
    n := n + Len8(x);
  }

  method LeadingZeros64(x: Word) returns (n: nat)
    ensures n == Nlz(x)
  {
    var l := Len64(x);
    WordBitLen(x);
    n := 64 - l;
  }

  lemma WordBitLen(x: Word)
    ensures BitLen(x) <= 64
  {
    Pow2Consts();
    BitLenBounds(x);
    if BitLen(x) > 64 { Pow2Mono(64, BitLen(x) - 1); }
  }

  function Nlz(x: Word): (s: nat)
    ensures s <= 64
  {
    WordBitLen(x);
    64 - BitLen(x)
  }

  // ---- the lowest set bit -----------------------------------------------------

  // The number of zero bits below the lowest set bit
  function Ctz(x: nat): (n: nat)
    requires x > 0
  {
    if x % 2 == 1 then 0 else 1 + Ctz(x / 2)
  }

  lemma {:induction false} AndComplement(a: nat, k: nat)
    requires a < Pow2(k)
    ensures BitAnd(a, Pow2(k) - 1 - a) == 0
  {
    if k > 0 {
      AndComplement(a / 2, k - 1);
      assert (Pow2(k) - 1 - a) / 2 == Pow2(k - 1) - 1 - a / 2;
    }
  }

  // x & -x keeps the lowest set bit.
  lemma {:induction false} LowestBit(x: nat, k: nat)
    requires 0 < x < Pow2(k)
    ensures BitAnd(x, Pow2(k) - x) == Pow2(Ctz(x)) && Ctz(x) < k
  {
    if x % 2 == 1 {
      AndComplement(x / 2, k - 1);
      assert (Pow2(k) - x) / 2 == Pow2(k - 1) - 1 - x / 2;
    } else {
      LowestBit(x / 2, k - 1);
      assert (Pow2(k) - x) / 2 == Pow2(k - 1) - x / 2;
    }
  }

  lemma NegatedWord(x: Word)
    requires x > 0
    ensures BitAnd(x, Sub64(0, x)) == Pow2(Ctz(x)) && Ctz(x) < 64
  {
    hide Pow2, Ctz, BitAnd, Sub64;
    Pow2Consts();
    LowestBit(x, 64);
    Negative(x);
  }

  lemma Negative(x: Word)
    requires x > 0
    ensures Sub64(0, x) == W - x
  {
    var v: int := x;
    DivModUnique(-v, W, -1, W - v);
  }

  // Shifting a nonzero word left by its leading zeros sets the top bit and loses nothing.
  lemma Normalises(y: Word)
    requires y > 0
    ensures Nlz(y) < 64
    ensures Shl(y, Nlz(y)) == y * Pow2(Nlz(y))
    ensures TOP <= Shl(y, Nlz(y))
  {
    hide BitLen, Pow2;
    Pow2Consts();
    BitLenBounds(y);
    WordBitLen(y);
    var n, s := BitLen(y), Nlz(y);
    Pow2Add(n, s);
    Pow2Add(n - 1, s);
    assert (n - 1) + s == 63;
    ScaledBounds(y, Pow2(n - 1), Pow2(n), Pow2(s));
    NoWrap(y * Pow2(s));
  }

  lemma ScaledBounds(y: int, lo: int, hi: int, p: int)
    requires lo <= y < hi && p > 0
    ensures lo * p <= y * p < hi * p
  {
    MulMono(lo, y, p);
    MulMono(y + 1, hi, p);
    assert (y + 1) * p == y * p + p;
  }

  // ---- U64Add, U64Sub, U64Mul -----------------------------------------------

  // The carry is bit 63 of (x & y) | ((x | y) & ~sum).
  function U64Add(x: Word, y: Word, carry: Word): (r: (Word, Word))
    requires carry <= 1
    ensures r.0 + W * r.1 == x + y + carry
    ensures r.1 <= 1
  {
    hide CarryBit;
    var sum := Add64(Add64(x, y), carry);
    CarryTop(x, y, sum);
    (sum, CarryBit(x, y, sum))
  }

  function CarryBit(x: Word, y: Word, sum: Word): Word {
    hide BitAnd, BitOr;
    TopBits(x, y);
    TopBits(BitAnd(x, y), BitAnd(BitOr(x, y), BitNot(sum)));
    Shr(BitOr(BitAnd(x, y), BitAnd(BitOr(x, y), BitNot(sum))), 63)
  }

  lemma CarryTop(x: Word, y: Word, sum: Word)
    ensures CarryBit(x, y, sum) ==
            if (x >= TOP && y >= TOP) || ((x >= TOP || y >= TOP) && sum < TOP) then 1 else 0
  {
    hide BitAnd, BitOr, Pow2;
    TopBits(x, y);
    TopBits(BitOr(x, y), BitNot(sum));
    TopBits(BitAnd(x, y), BitAnd(BitOr(x, y), BitNot(sum)));
    Pow2Consts();
  }

  // The borrow is bit 63 of (~x & y) | (~(x ^ y) & diff); ~(x ^ y) is written
  // (x & y) | (~x & ~y).
  function U64Sub(x: Word, y: Word, borrow: Word): (r: (Word, Word))
    requires borrow <= 1
    ensures r.0 - W * r.1 == x - y - borrow
    ensures r.1 <= 1
  {
    hide BorrowBit;
    var diff := Sub64(Sub64(x, y), borrow);
    BorrowTop(x, y, diff);
    (diff, BorrowBit(x, y, diff))
  }

  function BorrowBit(x: Word, y: Word, diff: Word): Word {
    hide BitAnd, BitOr, Xnor;
    TopBits(BitAnd(BitNot(x), y), BitAnd(Xnor(x, y), diff));
    Shr(BitOr(BitAnd(BitNot(x), y), BitAnd(Xnor(x, y), diff)), 63)
  }

  lemma BorrowTop(x: Word, y: Word, diff: Word)
    ensures BorrowBit(x, y, diff) ==
            if (x < TOP && y >= TOP) || ((x >= TOP) == (y >= TOP) && diff >= TOP) then 1 else 0
  {
    hide BitAnd, BitOr, Pow2, Xnor;
    TopBits(BitNot(x), y);
    XnorTop(x, y);
    TopBits(Xnor(x, y), diff);
    TopBits(BitAnd(BitNot(x), y), BitAnd(Xnor(x, y), diff));
    Pow2Consts();
  }

  // ~(x ^ y)
  function Xnor(x: Word, y: Word): Word {
    TopBits(BitAnd(x, y), BitAnd(BitNot(x), BitNot(y)));
    BitOr(BitAnd(x, y), BitAnd(BitNot(x), BitNot(y)))
  }

  lemma XnorTop(x: Word, y: Word)
    ensures Xnor(x, y) / TOP == if (x >= TOP) == (y >= TOP) then 1 else 0
  {
    hide BitAnd, BitOr;
    TopBits(x, y);
    TopBits(BitNot(x), BitNot(y));
    TopBits(BitAnd(x, y), BitAnd(BitNot(x), BitNot(y)));
  }

  // Low and high word of x * y from four half-word products.
  function U64Mul(x: Word, y: Word): (r: (Word, Word))
    ensures r.0 + W * r.1 == x * y
  {
    hide BitAnd, Pow2, Shr, MulHigh;
    var x0 := BitAnd(x, HALF - 1);
    var x1 := Shr(x, 32);
    var y0 := BitAnd(y, HALF - 1);
    var y1 := Shr(y, 32);
    SplitHalves(x);
    SplitHalves(y);
    HalfProduct(x0, y0);
    HalfProduct(x1, y0);
    HalfProduct(x0, y1);
    HalfProduct(x1, y1);
    FourProducts(x, y, x0, x1, y0, y1);
    HighWord(x0 * y0, x0 * y1, x1 * y0, x1 * y1);
    (Mul64(x, y), MulHigh(x0 * y0, x0 * y1, x1 * y0, x1 * y1))
  }

  // The high word from the four half-word products, each of which fits a word.
  function MulHigh(p00: nat, p01: nat, p10: nat, p11: nat): Word {
    hide BitAnd;
    var w0 := p00 % W;
    var t := Add64(p10 % W, Shr(w0, 32));
    var w1 := BitAnd(t, HALF - 1);
    var w2 := Shr(t, 32);
    var w1' := Add64(w1, p01 % W);
    Add64(Add64(p11 % W, w2), Shr(w1', 32))
  }

  lemma SplitHalves(x: Word)
    ensures BitAnd(x, HALF - 1) == x % HALF
    ensures Shr(x, 32) == x / HALF < HALF
  {
    Pow2Consts();
    MaskIsMod(x, 32);
  }

  lemma TwoHalves(x: Word)
    ensures x == Shr(x, 32) * HALF + BitAnd(x, HALF - 1)
    ensures Shr(x, 32) < HALF && BitAnd(x, HALF - 1) < HALF
  {
    SplitHalves(x);
  }

  lemma HalfProduct(a: int, b: int)
    requires 0 <= a < HALF && 0 <= b < HALF
    ensures 0 <= a * b <= (HALF - 1) * (HALF - 1)
  {
    MulMono(0, a, b);
    MulMono(a, HALF - 1, b);
  }

  lemma FourProducts(x: int, y: int, x0: int, x1: int, y0: int, y1: int)
    requires x == x1 * HALF + x0 && y == y1 * HALF + y0
    ensures x * y == x1 * y1 * W + (x0 * y1 + x1 * y0) * HALF + x0 * y0
  {
    assert x * y == (x1 * HALF) * (y1 * HALF) + (x1 * HALF) * y0 + x0 * (y1 * HALF) + x0 * y0;
    assert (x1 * HALF) * (y1 * HALF) == x1 * y1 * (HALF * HALF);
  }

  lemma HighWord(p00: nat, p01: nat, p10: nat, p11: nat)
    requires p00 <= (HALF - 1) * (HALF - 1) && p01 <= (HALF - 1) * (HALF - 1)
    requires p10 <= (HALF - 1) * (HALF - 1) && p11 <= (HALF - 1) * (HALF - 1)
    ensures var p := p11 * W + (p01 + p10) * HALF + p00;
            p % W + W * MulHigh(p00, p01, p10, p11) == p
  {
    var t := p10 + p00 / HALF;
    var w1' := t % HALF + p01;
    var h := p11 + t / HALF + w1' / HALF;
    HighParts(p00, p01, p10, p11);
    HighSum(p00, p01, p10, p11, t, w1', h);
  }

  lemma HighParts(p00: nat, p01: nat, p10: nat, p11: nat)
    requires p00 <= (HALF - 1) * (HALF - 1) && p01 <= (HALF - 1) * (HALF - 1)
    requires p10 <= (HALF - 1) * (HALF - 1) && p11 <= (HALF - 1) * (HALF - 1)
    ensures var t := p10 + p00 / HALF;
            MulHigh(p00, p01, p10, p11) == p11 + t / HALF + (t % HALF + p01) / HALF
  {
    hide BitAnd, Pow2, Shr, Add64;
    NoWrap(p00); NoWrap(p01); NoWrap(p10); NoWrap(p11);
    SplitHalves(p00);
    AddFits(p10, p00 / HALF);
    var t := p10 + p00 / HALF;
    SplitHalves(t);
    AddFits(t % HALF, p01);
    var w1' := t % HALF + p01;
    SplitHalves(w1');
    AddFits(p11, t / HALF);
    AddFits(p11 + t / HALF, w1' / HALF);
  }

  lemma HighSum(p00: nat, p01: nat, p10: nat, p11: nat, t: int, w1': int, h: int)
    requires t == p10 + p00 / HALF && w1' == t % HALF + p01 && h == p11 + t / HALF + w1' / HALF
    ensures var p := p11 * W + (p01 + p10) * HALF + p00; p % W + W * h == p
  {
    var p := p11 * W + (p01 + p10) * HALF + p00;
    assert p == h * W + ((w1' % HALF) * HALF + p00 % HALF);
    DivModUnique(p, W, h, (w1' % HALF) * HALF + p00 % HALF);
  }

  // ---- U64Div ------------------------------------------------------------------

  // One 32-bit quotient digit: un * 2^32 + d divided by the normalised y, given un < y.
  // The estimate un / yn1 is corrected at most twice, and none of the 64-bit
  // expressions in the correction test or in the remainder wraps to a wrong value.
  method DivDigit(un: Word, d: Word, y: Word) returns (q: Word, rest: Word)
    requires TOP <= y && un < y && d < HALF
    ensures q < HALF && rest < y
    ensures un * HALF + d == q * y + rest
  {
    hide BitAnd, Pow2, Shr, Add64, Sub64, Mul64;
    var yn1 := Shr(y, 32);
    var yn0 := BitAnd(y, HALF - 1);
    TwoHalves(y);
    ghost var digit := Quotient(un * HALF + d, y);
    DivShrinks(un, yn1);
    var q1 := un / yn1;
    DivBounds(un, yn1);
    DigitEstimate(un, d, y, yn1, yn0, digit, q1);
    MulFits(q1, yn1);
    SubFits(un, q1 * yn1);
    var rhat := Sub64(un, Mul64(q1, yn1));
    ghost var steps: nat;
    q, steps := CorrectDigit(q1, rhat, un, d, y, yn1, yn0, digit);
    rest := Sub64(Add64(Mul64(un, HALF), d), Mul64(q, y));
    WrapsBack(un * HALF, d, q * y);
    MulIsMod(un, HALF);
    MulIsMod(q, y);
  }

  // Quotient estimate q of un by yn1 with remainder rhat
  ghost predicate Estimate(q: int, rhat: int, un: int, yn1: int) {
    q * yn1 + rhat == un
  }

  // digit is the true quotient of un * 2^32 + d by y = yn1 * 2^32 + yn0.
  ghost predicate TrueDigit(digit: int, un: int, d: int, y: int, yn1: int, yn0: int) {
    && y == yn1 * HALF + yn0
    && 0 <= yn0 < HALF && 0 <= yn1 < HALF && 0 <= d < HALF && 0 <= digit < HALF
    && digit * y <= un * HALF + d < digit * y + y
  }

  // The correction loop; digit is the true quotient digit.
  method CorrectDigit(q1: Word, r1: Word, un: Word, d: Word, y: Word, yn1: Word, yn0: Word, ghost digit: int)
    returns (q: Word, ghost steps: nat)
    requires TrueDigit(digit, un, d, y, yn1, yn0) && yn1 < HALF
    requires Estimate(q1, r1, un, yn1) && r1 < HALF
    requires 0 <= digit <= q1 <= digit + 2 && q1 <= HALF + 1
    ensures q == digit && q == q1 - steps && steps <= 2
  {
    hide Add64, Sub64, Mul64, Estimate, TrueDigit;
    var rhat: Word := r1;
    q, steps := q1, 0;
    while q >= HALF || Mul64(q, yn0) > Add64(Mul64(HALF, rhat), d)
      invariant Estimate(q, rhat, un, yn1) && rhat < HALF
      invariant 0 <= digit <= q <= HALF + 1
      invariant q + steps == q1
      decreases q
    {
      TooBig(q, rhat, un, d, y, yn1, yn0, digit);
      q := q - 1;
      AddFits(rhat, yn1);
      rhat := Add64(rhat, yn1);
      steps := steps + 1;
      if rhat >= HALF {
        break;
      }
    }
    Settled(q, rhat, un, d, y, yn1, yn0, digit);
  }

  lemma MulIsMod(a: int, b: int)
    ensures Mul64(a, b) == (a * b) % W
  {}


  lemma Quotient(a: nat, d: nat) returns (q: nat)
    requires d > 0
    ensures q * d <= a < q * d + d
  {
    DivBounds(a, d);
    q := a / d;
  }

  // The quotient of the leading digits is never low and at most 2 high.
  lemma DigitEstimate(un: int, d: int, y: int, yn1: int, yn0: int, digit: int, q: int)
    requires y == yn1 * HALF + yn0 && 0 <= yn0 < HALF && TOP <= y < W
    requires 0 <= un < y && 0 <= d < HALF
    requires digit * y <= un * HALF + d < digit * y + y
    requires q * yn1 <= un < q * yn1 + yn1
    ensures 0 <= digit < HALF
    ensures digit <= q <= digit + 2 && q <= HALF + 1
  {
    assert (digit + 1) * y == digit * y + y;
    CancelLt(digit, HALF, y);
    CancelLt(0, digit + 1, y);
    EstimateLow(q, un, d, y, yn1, yn0, digit);
    CancelLt(q, HALF + 2, yn1);
    EstimateHigh(q, un, d, y, yn1, yn0, digit);
  }

  lemma EstimateLow(q: int, un: int, d: int, y: int, yn1: int, yn0: int, digit: int)
    requires y == yn1 * HALF + yn0 && 0 <= yn0 < HALF && 0 < yn1
    requires un < q * yn1 + yn1
    requires 0 <= d < HALF && 0 <= digit && digit * y <= un * HALF + d
    ensures digit <= q
  {
    assert digit * y == (digit * yn1) * HALF + digit * yn0;
    assert digit * yn0 >= 0;
    assert digit * yn1 <= un;
    assert (q + 1) * yn1 == q * yn1 + yn1;
    CancelLt(digit, q + 1, yn1);
  }

  lemma EstimateHigh(q: int, un: int, d: int, y: int, yn1: int, yn0: int, digit: int)
    requires y == yn1 * HALF + yn0 && 0 <= yn0 < HALF && HALF / 2 <= yn1
    requires q * yn1 <= un && q <= HALF + 1
    requires 0 <= d && 0 <= digit && un * HALF + d < digit * y + y
    ensures q <= digit + 2
  {
    assert (digit + 1) * y == digit * y + y;
    assert (q - 2) * y == (q * yn1) * HALF - 2 * yn1 * HALF + (q - 2) * yn0;
    MulMono(q - 2, HALF - 1, yn0);
    CancelLt(q - 2, digit + 1, y);
  }

  lemma TooBig(q: int, rhat: int, un: int, d: int, y: int, yn1: int, yn0: int, digit: int)
    requires TrueDigit(digit, un, d, y, yn1, yn0)
    requires Estimate(q, rhat, un, yn1) && 0 <= rhat < HALF
    requires q >= HALF || Mul64(q, yn0) > Add64(Mul64(HALF, rhat), d)
    requires digit <= q
    ensures q > digit
    ensures Estimate(q - 1, rhat + yn1, un, yn1)
  {
    hide Add64, Mul64;
    if q < HALF {
      TestFits(q, rhat, d, yn0);
      assert q * y == (q * yn1) * HALF + q * yn0;
    }
    StepBack(q, rhat, un, yn1);
  }

  // The correction test compares true values.
  lemma TestFits(q: int, rhat: int, d: int, yn0: int)
    requires 0 <= q < HALF && 0 <= rhat < HALF && 0 <= d < HALF && 0 <= yn0 < HALF
    ensures Mul64(q, yn0) == q * yn0
    ensures Add64(Mul64(HALF, rhat), d) == HALF * rhat + d
  {
    hide Mul64, Add64;
    HalfProduct(q, yn0);
    MulFits(q, yn0);
    MulFits(HALF, rhat);
    AddFits(HALF * rhat, d);
  }

  lemma StepBack(q: int, rhat: int, un: int, yn1: int)
    requires q * yn1 + rhat == un
    ensures (q - 1) * yn1 + (rhat + yn1) == un
  {}

  lemma Settled(q: int, rhat: int, un: int, d: int, y: int, yn1: int, yn0: int, digit: int)
    requires TrueDigit(digit, un, d, y, yn1, yn0)
    requires Estimate(q, rhat, un, yn1) && 0 <= rhat
    requires digit <= q
    requires (rhat >= HALF && q <= HALF) || (rhat < HALF && q < HALF && Mul64(q, yn0) <= Add64(Mul64(HALF, rhat), d))
    ensures q == digit
  {
    hide Add64, Mul64;
    if rhat >= HALF {
      MulMono(q, HALF, yn0);
    } else {
      TestFits(q, rhat, d, yn0);
    }
    assert q * yn0 <= HALF * rhat + d;
    assert q * y == (q * yn1) * HALF + q * yn0;
    assert (digit + 1) * y == digit * y + y;
    CancelLt(q, digit + 1, y);
  }

  // Wrapped additions and subtractions give the true value when that value is a word.
  lemma WrapsBack(a: int, b: int, c: int)
    requires 0 <= a + b - c < W
    ensures Sub64(Add64(a % W, b), c % W) == a + b - c
  {
    var k, m := a / W, c / W;
    assert a == k * W + a % W && c == m * W + c % W;
    var n := (a % W + b) / W;
    assert a % W + b == n * W + (a % W + b) % W;
    DivModUnique((a % W + b) % W - c % W, W, m - k - n, a + b - c);
  }

  method U64Div(hi: Word, lo: Word, y: Word) returns (q: Word, rem: Word)
    requires y > hi
    ensures q * y + rem == hi * W + lo
    ensures rem < y
  {
    hide BitAnd, BitOr, Pow2, Shl, Shr, BitLen;
    if hi == 0 {
      DivBounds(lo, y);
      DivShrinks(lo, y);
      rem := lo % y;
      q := lo / y;
      return;
    }
    var s := LeadingZeros64(y);
    Normalises(y);
    var yy := Shl(y, s);
    var un32: Word := Shl(hi, s);
    MulMono(hi, y, Pow2(s));
    ShlJoin(hi, lo, y, s);
    if s != 0 {
      un32 := BitOr(un32, Shr(lo, 64 - s));
    }
    var un10 := Shl(lo, s);
    ShiftedPair(hi, lo, y, s);
    var r: Word;
    q, r := DivNormalised(un32, un10, yy);
    rem := Shr(r, s);
    ShrIsDiv(r, s);
    Unscale(hi * W + lo, q, y, Pow2(s), r);
  }

  // The division proper, two half-word digits by a divisor with its top bit set.
  method DivNormalised(un32: Word, un10: Word, y: Word) returns (q: Word, r: Word)
    requires TOP <= y && un32 < y
    ensures q * y + r == un32 * W + un10
    ensures r < y
  {
    hide BitAnd, Shr, Add64, Mul64;
    var un1 := Shr(un10, 32);
    var un0 := BitAnd(un10, HALF - 1);
    TwoHalves(un10);
    var q1, un21 := DivDigit(un32, un1, y);
    var q0: Word;
    q0, r := DivDigit(un21, un0, y);
    q := Add64(Mul64(q1, HALF), q0);
    TwoDigits(un32, un1, un0, y, q1, un21, q0, r);
  }

  lemma ShrIsDiv(x: nat, s: nat)
    ensures Shr(x, s) == x / Pow2(s)
  {}

  function JoinedHigh(hi: Word, lo: Word, s: nat): int
    requires s < 64
  {
    if s == 0 then hi else hi * Pow2(s) + lo / Pow2(64 - s)
  }

  lemma ShlJoin(hi: Word, lo: Word, y: Word, s: nat)
    requires s < 64 && hi < y && y * Pow2(s) < W
    ensures s == 0 ==> Shl(hi, s) == JoinedHigh(hi, lo, s)
    ensures s > 0 ==> BitOr(Shl(hi, s), Shr(lo, 64 - s)) == JoinedHigh(hi, lo, s) < W
  {
    if s == 0 {
      NoWrap(hi);
    } else {
      hide BitOr, Pow2;
      MulMono(hi, y, Pow2(s));
      NoWrap(hi * Pow2(s));
      ShiftedPair(hi, lo, y, s);
      Pow2Consts();
      Pow2Add(64 - s, s);
      BelowQuotient(lo, Pow2(64 - s), Pow2(s));
      ShrIsDiv(lo, 64 - s);
      OrIsAdd(hi, lo / Pow2(64 - s), s);
    }
  }

  lemma BelowQuotient(x: nat, a: nat, b: nat)
    requires a > 0 && x < a * b
    ensures x / a < b
  {
    var q := x / a;
    assert x == a * q + x % a;
    if q >= b { MulMono(b, q, a); }
  }

  // (hi, lo) shifted left by s is (JoinedHigh, Shl(lo, s)), and stays below y * 2^s in its high word.
  lemma ShiftedPair(hi: Word, lo: Word, y: Word, s: nat)
    requires s < 64 && hi < y && y * Pow2(s) < W
    ensures JoinedHigh(hi, lo, s) * W + Shl(lo, s) == (hi * W + lo) * Pow2(s)
    ensures 0 <= JoinedHigh(hi, lo, s) < y * Pow2(s)
  {
    hide Pow2;
    if s == 0 {
      NotShifted(hi, lo, y);
    } else {
      Pow2Consts();
      Pow2Add(64 - s, s);
      ScaledPair(hi, lo, y, Pow2(64 - s), Pow2(s));
      JoinedIsPositive(hi, lo, Pow2(64 - s), Pow2(s));
    }
  }

  lemma JoinedIsPositive(hi: Word, lo: Word, c: nat, p: nat)
    requires c > 0
    ensures 0 <= hi * p + lo / c
  {
    DivBounds(lo, c);
    MulMono(0, hi, p);
  }

  lemma NotShifted(hi: Word, lo: Word, y: Word)
    requires hi < y
    ensures JoinedHigh(hi, lo, 0) * W + Shl(lo, 0) == (hi * W + lo) * Pow2(0)
    ensures 0 <= JoinedHigh(hi, lo, 0) < y * Pow2(0)
  {
    NoWrap(lo);
    MulOne(lo);
    MulOne(y);
    MulOne(hi * W + lo);
  }

  lemma MulOne(x: int)
    ensures x * Pow2(0) == x
  {}

  lemma ScaledPair(hi: Word, lo: Word, y: Word, c: int, p: int)
    requires c > 0 && p > 0 && c * p == W && hi < y
    ensures (hi * p + lo / c) * W + (lo * p) % W == (hi * W + lo) * p
    ensures hi * p + lo / c < y * p
  {
    var h, l := lo / c, lo % c;
    assert lo == h * c + l;
    assert lo * p == h * (c * p) + l * p;
    MulMono(l + 1, c, p);
    assert (l + 1) * p == l * p + p;
    assert l * p >= 0;
    DivModUnique(lo * p, W, h, l * p);
    BelowQuotient(lo, c, p);
    MulMono(hi + 1, y, p);
    assert (hi + 1) * p == hi * p + p;
    assert (hi * W + lo) * p == (hi * p) * W + lo * p;
  }

  lemma TwoDigits(un32: int, un1: int, un0: int, y: int, q1: int, un21: int, q0: int, r: int)
    requires 0 <= q1 < HALF && 0 <= q0 < HALF
    requires un32 * HALF + un1 == q1 * y + un21
    requires un21 * HALF + un0 == q0 * y + r
    ensures un32 * W + un1 * HALF + un0 == (q1 * HALF + q0) * y + r
    ensures Add64(Mul64(q1, HALF), q0) == q1 * HALF + q0
  {
    MulFits(q1, HALF);
    AddFits(q1 * HALF, q0);
    Distribute(q1, HALF, q0, y);
  }

  lemma Distribute(a: int, b: int, c: int, y: int)
    ensures (a * b + c) * y == (a * y) * b + c * y
  {}

  // The remainder of the scaled division is the scaled remainder.
  lemma Unscale(x: int, q: int, y: int, p: int, r: int)
    requires p > 0 && x * p == q * (y * p) + r && 0 <= r < y * p
    ensures x == q * y + r / p && 0 <= r / p < y
  {
    assert r == (x - q * y) * p;
    DivModUnique(r, p, x - q * y, 0);
    if r / p >= y { MulMono(y, r / p, p); }
    if r / p < 0 { MulMono(r / p, -1, p); }
  }
}
