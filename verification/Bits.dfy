/** Fixed-width integer operators as the C sources use them: powers of two,
    shifts, and the bitwise operators on natural numbers. */
module Bits {

  // The word size is 64 bits throughout; W is the base of a word array.
  const W: int := 0x1_0000_0000_0000_0000
  const HALF: int := 0x1_0000_0000
  const TOP: int := 0x8000_0000_0000_0000

  type Word = x: int | 0 <= x < W witness 0

  function Pow2(k: nat): (p: nat)
    ensures p >= 1
  {
    if k == 0 then 1 else 2 * Pow2(k - 1)
  }

  // C's unsigned arithmetic wraps around.
  function Add64(x: int, y: int): Word { (x + y) % W }
  function Sub64(x: int, y: int): Word { (x - y) % W }
  function Mul64(x: int, y: int): Word { (x * y) % W }

  function Shl(x: Word, s: nat): Word
    requires s < 64
  {
    (x * Pow2(s)) % W
  }

  function Shr(x: nat, s: nat): (r: nat)
    ensures r <= x
  {
    DivShrinks(x, Pow2(s));
    x / Pow2(s)
  }

  lemma DivShrinks(x: nat, d: nat)
    requires d >= 1
    ensures 0 <= x / d <= x
  {
    var q := x / d;
    DivBounds(x, d);
    MulMono(1, d, q);
  }

  function BitAnd(x: nat, y: nat): (r: nat)
    ensures r <= x && r <= y
  {
    if x == 0 || y == 0 then 0
    else 2 * BitAnd(x / 2, y / 2) + (if x % 2 == 1 && y % 2 == 1 then 1 else 0)
  }

  function BitOr(x: nat, y: nat): (r: nat)
    ensures x <= r && y <= r <= x + y
  {
    if x == 0 then y
    else if y == 0 then x
    else 2 * BitOr(x / 2, y / 2) + (if x % 2 == 1 || y % 2 == 1 then 1 else 0)
  }

  // ~x on a 64-bit word
  function BitNot(x: Word): Word { W - 1 - x }

  // ---- powers of two ----------------------------------------------------

  lemma {:induction false} Pow2Add(a: nat, b: nat)
    ensures Pow2(a + b) == Pow2(a) * Pow2(b)
  {
    if a > 0 {
      Pow2Add(a - 1, b);
      MulAssoc(2, Pow2(a - 1), Pow2(b));
    }
  }

  lemma Pow2Consts()
    ensures Pow2(32) == HALF && Pow2(63) == TOP && Pow2(64) == W && Pow2(16) == 65536 && Pow2(8) == 256
  {
    hide Pow2;
    EightBits();
    Pow2Add(8, 8);
    Pow2Add(16, 16);
    Pow2Add(32, 32);
    Pow2Double(63);
  }

  lemma EightBits()
    ensures Pow2(8) == 256
  {}

  lemma Pow2Double(k: nat)
    ensures Pow2(k + 1) == 2 * Pow2(k)
  {}

  lemma Pow2One()
    ensures Pow2(1) == 2
  {}

  lemma {:induction false} Pow2Mono(a: nat, b: nat)
    requires a <= b
    ensures Pow2(a) <= Pow2(b)
  {
    if a < b { Pow2Mono(a, b - 1); }
  }

  // ---- small facts about * / % -------------------------------------------

  lemma MulAssoc(a: int, b: int, c: int)
    ensures (a * b) * c == a * (b * c)
  {}

  lemma MulMono(a: int, b: int, c: int)
    requires a <= b && c >= 0
    ensures a * c <= b * c
  {}

  // Strict order carries over when a factor is cancelled.
  lemma CancelLt(a: int, b: int, c: int)
    requires a * c < b * c && c >= 0
    ensures a < b
  {
    if a >= b { MulMono(b, a, c); }
  }

  lemma AddFits(a: int, b: int)
    requires 0 <= a + b < W
    ensures Add64(a, b) == a + b
  {}

  lemma SubFits(a: int, b: int)
    requires 0 <= a - b < W
    ensures Sub64(a, b) == a - b
  {}

  lemma MulFits(a: int, b: int)
    requires 0 <= a * b < W
    ensures Mul64(a, b) == a * b
  {
    NoWrap(a * b);
  }

  lemma NoWrap(a: int)
    requires 0 <= a < W
    ensures a % W == a
  {}

  lemma DivBounds(a: int, d: int)
    requires d > 0
    ensures (a / d) * d <= a < (a / d) * d + d
    ensures a >= 0 ==> a / d >= 0 && (a / d) * d >= 0
  {
    assert a == (a / d) * d + a % d;
    if a >= 0 { CancelLt(-1, a / d, d); }
  }

  // Quotient and remainder are determined by their defining equation.
  lemma DivModUnique(x: int, d: int, q: int, r: int)
    requires d > 0 && x == q * d + r && 0 <= r < d
    ensures x / d == q && x % d == r
  {
    var q', r' := x / d, x % d;
    assert (q - q') * d == r' - r;
    if q > q' { MulMono(1, q - q', d); }
    if q < q' { MulMono(q - q', -1, d); }
  }

  lemma DivDiv(x: nat, a: nat, b: nat)
    requires a > 0 && b > 0
    ensures a * b > 0 && x / (a * b) == (x / a) / b
  {
    var q, r := x / a, x % a;
    var q', r' := q / b, q % b;
    MulMono(1, a, b);
    assert x == (q' * b + r') * a + r;
    assert (q' * b + r') * a == q' * (a * b) + r' * a;
    assert r' * a + r < a * b by { MulMono(r' + 1, b, a); assert (r' + 1) * a == r' * a + a; }
    assert r' * a >= 0;
    DivModUnique(x, a * b, q', r' * a + r);
  }

  // ---- bitwise operators against shifts -----------------------------------

  lemma DivByPow2(x: nat, k: nat)
    requires k > 0
    ensures x / Pow2(k) == (x / 2) / Pow2(k - 1)
  {
    DivDiv(x, 2, Pow2(k - 1));
  }

  // Shifting right by k is halving k times.
  function Halved(x: nat, k: nat): nat {
    if k == 0 then x else Halved(x / 2, k - 1)
  }

  lemma {:induction false} HalvedIsDiv(x: nat, k: nat)
    ensures Halved(x, k) == x / Pow2(k)
  {
    if k > 0 {
      DivByPow2(x, k);
      HalvedIsDiv(x / 2, k - 1);
    }
  }

  lemma {:induction false} AndShr(x: nat, y: nat, k: nat)
    ensures Halved(BitAnd(x, y), k) == BitAnd(Halved(x, k), Halved(y, k))
  {
    if k > 0 {
      AndHalf(x, y);
      AndShr(x / 2, y / 2, k - 1);
    }
  }

  lemma AndHalf(x: nat, y: nat)
    ensures BitAnd(x, y) / 2 == BitAnd(x / 2, y / 2)
  {}

  lemma OrHalf(x: nat, y: nat)
    ensures BitOr(x, y) / 2 == BitOr(x / 2, y / 2)
  {}

  lemma {:induction false} OrCommutes(x: nat, y: nat)
    ensures BitOr(x, y) == BitOr(y, x)
  {
    if x > 0 && y > 0 { OrCommutes(x / 2, y / 2); }
  }

  lemma {:induction false} OrShr(x: nat, y: nat, k: nat)
    ensures Halved(BitOr(x, y), k) == BitOr(Halved(x, k), Halved(y, k))
  {
    if k > 0 {
      OrHalf(x, y);
      OrShr(x / 2, y / 2, k - 1);
    }
  }

  // Joining a value with k low zero bits and a k-bit value is addition.
  lemma {:induction false} OrIsAdd(h: nat, y: nat, k: nat)
    requires y < Pow2(k)
    ensures BitOr(h * Pow2(k), y) == h * Pow2(k) + y
  {
    hide Pow2, BitOr;
    if k == 0 {
      OrNothing(h, y);
    } else {
      Pow2Double(k - 1);
      OrIsAdd(h, y / 2, k - 1);
      TwiceTimes(h, Pow2(k - 1));
      OrDigit(h * Pow2(k - 1), y);
    }
  }

  lemma OrNothing(h: nat, y: nat)
    requires y < Pow2(0)
    ensures BitOr(h * Pow2(0), y) == h * Pow2(0) + y
  {}

  lemma TwiceTimes(h: nat, p: nat)
    ensures h * (2 * p) == 2 * (h * p)
  {}

  lemma OrDigit(x: nat, y: nat)
    requires BitOr(x, y / 2) == x + y / 2
    ensures BitOr(2 * x, y) == 2 * x + y
  {
    assert 2 * x / 2 == x && 2 * x % 2 == 0;
  }

  // Masking with 2^k - 1 keeps the remainder modulo 2^k.
  lemma {:induction false} MaskIsMod(x: nat, k: nat)
    ensures BitAnd(x, Pow2(k) - 1) == x % Pow2(k)
  {
    if k == 0 {
      DivModUnique(x, 1, x, 0);
    } else {
      MaskIsMod(x / 2, k - 1);
      MaskStep(x, Pow2(k - 1));
    }
  }

  lemma MaskStep(x: nat, p: nat)
    requires p > 0 && BitAnd(x / 2, p - 1) == (x / 2) % p
    ensures BitAnd(x, 2 * p - 1) == x % (2 * p)
  {
    AndOdd(x, p);
    hide BitAnd;
    ModDouble(x, p);
  }

  lemma ModDouble(x: nat, p: nat)
    requires p > 0
    ensures x % (2 * p) == 2 * ((x / 2) % p) + x % 2
  {
    var q, r := (x / 2) / p, (x / 2) % p;
    assert x / 2 == q * p + r;
    assert q * (2 * p) == 2 * (q * p);
    DivModUnique(x, 2 * p, q, 2 * r + x % 2);
  }

  lemma AndOdd(x: nat, p: nat)
    requires p > 0
    ensures BitAnd(x, 2 * p - 1) == 2 * BitAnd(x / 2, p - 1) + x % 2
  {
    assert (2 * p - 1) / 2 == p - 1 && (2 * p - 1) % 2 == 1;
  }

  // The word operators that select a carry act on the top bit alone.
  lemma TopBits(x: Word, y: Word)
    ensures BitAnd(x, y) / TOP == (if x >= TOP && y >= TOP then 1 else 0)
    ensures BitOr(x, y) / TOP == (if x >= TOP || y >= TOP then 1 else 0)
    ensures BitOr(x, y) < W
  {
    AndTop(x, y);
    OrTop(x, y);
  }

  lemma AndTop(x: Word, y: Word)
    ensures BitAnd(x, y) / TOP == (if x >= TOP && y >= TOP then 1 else 0)
  {
    AndShr(x, y, 63);
    TopIsHalved(x);
    TopIsHalved(y);
    TopIsHalved(BitAnd(x, y));
    OneBit(x / TOP, y / TOP);
  }

  lemma OrTop(x: Word, y: Word)
    ensures BitOr(x, y) / TOP == (if x >= TOP || y >= TOP then 1 else 0)
    ensures BitOr(x, y) < W
  {
    OrShr(x, y, 63);
    TopIsHalved(x);
    TopIsHalved(y);
    TopIsHalved(BitOr(x, y));
    OneBit(x / TOP, y / TOP);
  }

  lemma TopIsHalved(x: nat)
    ensures Halved(x, 63) == x / TOP
  {
    HalvedIsDiv(x, 63);
    Pow2Consts();
  }

  lemma OneBit(a: nat, b: nat)
    requires a <= 1 && b <= 1
    ensures BitAnd(a, b) == a * b && BitOr(a, b) == (if a + b > 0 then 1 else 0)
  {}
}
