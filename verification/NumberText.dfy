/** cmake/bigint/src/natconv.c, last part: natI2a. */
module NumberText {
  import opened Bits
  import opened Base
  import opened TrailingZeros
  import opened Nats
  import opened Positional
  import opened RadixTable
  import opened Conversion

  // ---- bit slices, for the bases that are powers of two -------------------------------------

  // w holds the next nbits bits, rest is the number above them.
  ghost predicate Sliced(q: int, w: int, nbits: nat, rest: int) {
    q == w + Pow2(nbits) * rest && 0 <= w < Pow2(nbits) && rest >= 0
  }

  lemma SliceStart(xs: seq<Word>)
    requires |xs| > 0
    ensures Sliced(Val(xs), xs[0], 64, Val(xs[1..])) && Val(xs) >= 0
  {
    hide Val, Pow2;
    ValCons(xs);
    ValBound(xs[1..]);
    Pow2Consts();
  }

  // A digit taken from within the word
  lemma SliceDigit(q: int, w: nat, nbits: nat, rest: int, shift: nat)
    requires Sliced(q, w, nbits, rest) && shift <= nbits
    ensures var b := Pow2(shift);
      var q' := w / b + Pow2(nbits - shift) * rest;
      q == q' * b + w % b && 0 <= w % b < b && Sliced(q', w / b, nbits - shift, rest)
  {
    Pow2Add(nbits - shift, shift);
    hide Pow2;
    SliceArithmetic(q, w, rest, Pow2(nbits - shift), Pow2(shift));
  }

  lemma SliceArithmetic(q: int, w: nat, rest: int, p: nat, b: nat)
    requires p > 0 && b > 0 && q == w + (p * b) * rest && w < p * b && rest >= 0
    ensures q == (w / b + p * rest) * b + w % b && 0 <= w % b < b && 0 <= w / b < p
  {
    DivBounds(w, b);
    CancelLt(w / b, p, b);
    MulAssoc(p, b, rest);
    assert (w / b + p * rest) * b == (w / b) * b + (p * b) * rest;
  }

  // With no bits left, the next word is taken whole.
  lemma SliceNextWord(q: int, w: int, xs: seq<Word>)
    requires |xs| > 0 && Sliced(q, w, 0, Val(xs))
    ensures Sliced(q, xs[0], 64, Val(xs[1..]))
  {
    hide Val, Pow2;
    NoBits();
    SliceStart(xs);
  }

  lemma NoBits()
    ensures Pow2(0) == 1
  {}

  // The digit that straddles two words: nbits bits from w, the others from the next word x.
  function Straddle(w: nat, x: Word, nbits: nat): nat
    requires nbits < 64
  {
    BitOr(w, Shl(x, nbits))
  }

  lemma SliceStraddle(q: int, w: nat, nbits: nat, xs: seq<Word>, shift: nat)
    requires |xs| > 0 && 0 < nbits < shift < 64 && Sliced(q, w, nbits, Val(xs))
    ensures var b, n' := Pow2(shift), 64 - (shift - nbits);
      var d, w' := Straddle(w, xs[0], nbits) % b, xs[0] / Pow2(shift - nbits);
      var q' := w' + Pow2(n') * Val(xs[1..]);
      q == q' * b + d && 0 <= d < b && Sliced(q', w', n', Val(xs[1..]))
  {
    hide Val, Pow2, Shl, BitOr;
    ValCons(xs);
    ValBound(xs[1..]);
    StraddleIs(w, xs[0], nbits);
    Pow2Consts();
    Pow2Add(nbits, 64 - nbits);
    Pow2Add(shift - nbits, 64 - shift);
    Pow2Add(nbits, shift - nbits);
    Pow2Add(shift - nbits, 64 - (shift - nbits));
    StraddleArithmetic(w, xs[0], Val(xs[1..]), Pow2(nbits), Pow2(shift - nbits), Pow2(64 - shift),
      Pow2(64 - (shift - nbits)), xs[0] % Pow2(64 - nbits));
  }

  // p, c, e, f stand for 2^nbits, 2^(shift - nbits), 2^(64 - shift), 2^(64 - (shift - nbits)).
  lemma StraddleArithmetic(w: nat, x: nat, rest: nat, p: nat, c: nat, e: nat, f: nat, kept: nat)
    requires p > 0 && c > 0 && e > 0 && w < p && x < W
    requires p * (c * e) == W && c * f == W && kept == x % (c * e)
    ensures c * e > 0 && p * c > 0
    ensures var d := (w + kept * p) % (p * c);
      w + p * (x + W * rest) == (x / c + f * rest) * (p * c) + d && 0 <= d < p * c && 0 <= x / c < f
  {
    MulMono(1, c, e);
    MulMono(1, p, c);
    var low := x % c;
    ModOfMod(x, c, e);
    DivBounds(x, c);
    DivBounds(kept, c);
    CancelLt(x / c, f, c);
    DigitOfKept(w, kept, kept / c, low, p, c);
    Regrouped(w, x, rest, p, c, f, x / c, low);
  }

  lemma DigitOfKept(w: int, kept: int, g: int, low: int, p: int, c: int)
    requires 0 <= w < p && 0 <= low < c && kept == g * c + low && p * c > 0
    ensures (w + kept * p) % (p * c) == w + low * p && 0 <= w + low * p < p * c
  {
    MulMono(0, low, p);
    MulMono(low + 1, c, p);
    assert (low + 1) * p == low * p + p;
    assert (g * c + low) * p == g * (p * c) + low * p;
    DivModUnique(w + kept * p, p * c, g, w + low * p);
  }

  lemma Regrouped(w: int, x: int, rest: int, p: int, c: int, f: int, h: int, low: int)
    requires x == h * c + low && c * f == W
    ensures w + p * (x + W * rest) == (h + f * rest) * (p * c) + (w + low * p)
  {
    assert p * (x + W * rest) == p * x + p * (W * rest);
    assert p * x == h * (p * c) + low * p;
    MulAssoc(c, f, rest);
    assert W * rest == c * (f * rest);
    MulAssoc(p, c, f * rest);
    assert (h + f * rest) * (p * c) == h * (p * c) + (f * rest) * (p * c);
  }

  lemma ModOfMod(x: nat, c: nat, e: nat)
    requires c > 0 && e > 0
    ensures c * e > 0 && (x % (c * e)) % c == x % c
  {
    MulMono(1, c, e);
    var k, m := x / (c * e), x % (c * e);
    DivBounds(x, c * e);
    DivBounds(m, c);
    assert x == k * (c * e) + m;
    assert k * (c * e) == (k * e) * c;
    DivModUnique(x, c, k * e + m / c, m % c);
  }

  // The bits of x that Shl keeps, above those of w
  lemma StraddleIs(w: nat, x: Word, nbits: nat)
    requires 0 < nbits < 64 && w < Pow2(nbits)
    ensures Straddle(w, x, nbits) == w + (x % Pow2(64 - nbits)) * Pow2(nbits)
    ensures 0 <= x % Pow2(64 - nbits) < Pow2(64 - nbits)
  {
    Pow2Consts();
    Pow2Add(64 - nbits, nbits);
    hide Pow2, BitOr;
    var c, p := Pow2(64 - nbits), Pow2(nbits);
    ShlKeeps(x, c, p);
    OrIsAdd(x % c, w, nbits);
    OrCommutes((x % c) * p, w);
  }

  lemma ShlKeeps(x: nat, c: nat, p: nat)
    requires c > 0 && p > 0 && c * p == W
    ensures (x * p) % W == (x % c) * p && 0 <= x % c < c
  {
    DivBounds(x, c);
    assert x == (x / c) * c + x % c;
    assert x * p == (x / c) * (c * p) + (x % c) * p;
    MulMono(0, x % c, p);
    MulMono(x % c + 1, c, p);
    assert (x % c + 1) * p == (x % c) * p + p;
    DivModUnique(x * p, W, x / c, (x % c) * p);
  }

  // What the slicing loop keeps: q is still to be written in front of position i, and the digit
  // at i is not '0' once nothing is left.
  ghost predicate Slicing(tail: string, x: nat, b: Radix, n: nat, q: int, i: nat) {
    q >= 0 && Converted(tail, x, b, n, q, i) && (q == 0 && x > 0 ==> |tail| > 0 && tail[0] != '0')
  }

  // Write one digit of q, which is not zero; so there is room for it.
  method PutDigit(s: array<char>, off: nat, i: nat, b: Radix, d: nat, ghost q: int, ghost q': int,
                  ghost x: nat, ghost n: nat)
    requires i <= n && off + n <= s.Length && d < b && q == q' * b + d > 0
    requires Slicing(s[off + i..off + n], x, b, n, q, i)
    modifies s
    ensures i > 0 && CharsWithin(s, off + i - 1, off + i)
    ensures Slicing(s[off + i - 1..off + n], x, b, n, q', i - 1)
  {
    hide Converted, DigitChar, Digits;
    ghost var tail := s[off + i..off + n];
    CancelLt(-1, q', b);
    RoomLeft(tail, x, b, n, q, i);
    ConvertDigit(tail, x, b, n, q, i, q', d);
    DigitRoundTrip(d);
    s[off + i - 1] := DigitChar(d);
    assert s[off + i - 1..off + n] == [DigitChar(d)] + tail;
  }

  // The digits that lie within one word
  method SliceWord(s: array<char>, off: nat, start: nat, b: Radix, shift: nat, word: nat, bits: nat, ghost rest: int,
                   ghost q0: int, ghost x: nat, ghost n: nat)
    returns (i: nat, w: nat, nbits: nat, ghost q: int)
    requires start <= n && off + n <= s.Length && b == Pow2(shift) && 0 < shift < 64
    requires Slicing(s[off + start..off + n], x, b, n, q0, start)
    requires Sliced(q0, word, bits, rest) && rest > 0
    modifies s
    ensures i <= start && CharsWithin(s, off + i, off + start)
    ensures Slicing(s[off + i..off + n], x, b, n, q, i)
    ensures nbits < shift && Sliced(q, w, nbits, rest)
  {
    hide Pow2, Slicing, Sliced, DigitChar, BitAnd, Shr;
    i, w, nbits, q := start, word, bits, q0;
    while nbits >= shift
      invariant i <= start && CharsWithin(s, off + i, off + start)
      invariant Slicing(s[off + i..off + n], x, b, n, q, i)
      invariant Sliced(q, w, nbits, rest)
    {
      SlicedPositive(q, w, nbits, rest);
      SliceDigit(q, w, nbits, rest, shift);
      MaskIsMod(w, shift);
      ShrIsDiv(w, shift);
      ghost var q' := w / b + Pow2(nbits - shift) * rest;
      PutDigit(s, off, i, b, BitAnd(w, Pow2(shift) - 1), q, q', x, n);
      i := i - 1;
      w := Shr(w, shift);
      nbits := nbits - shift;
      q := q';
    }
  }

  lemma SlicedPositive(q: int, w: int, nbits: nat, rest: int)
    requires Sliced(q, w, nbits, rest) && (rest > 0 || w > 0)
    ensures q > 0
  {
    if rest > 0 { MulMono(1, rest, Pow2(nbits)); }
  }

  // The digits of the last word, up to the most significant one that is not zero
  method SliceLast(s: array<char>, off: nat, start: nat, b: Radix, shift: nat, word: nat, ghost nbits0: nat,
                   ghost q0: int, ghost x: nat, ghost n: nat)
    returns (i: nat)
    requires start <= n && off + n <= s.Length && b == Pow2(shift) && 0 < shift
    requires Slicing(s[off + start..off + n], x, b, n, q0, start)
    requires Sliced(q0, word, nbits0, 0)
    modifies s
    ensures i <= start && CharsWithin(s, off + i, off + start)
    ensures Slicing(s[off + i..off + n], x, b, n, 0, i)
    ensures word == 0 ==> i == start
  {
    hide Pow2, Slicing, DigitChar, BitAnd, Shr;
    var w: nat := word;
    i := start;
    while w != 0
      invariant i <= start && CharsWithin(s, off + i, off + start)
      invariant Slicing(s[off + i..off + n], x, b, n, w, i)
      invariant word == 0 ==> i == start
      decreases w
    {
      DivisionParts(w, b);
      Smaller(w, b);
      MaskIsMod(w, shift);
      ShrIsDiv(w, shift);
      PutDigit(s, off, i, b, BitAnd(w, Pow2(shift) - 1), w, w / b, x, n);
      i := i - 1;
      w := Shr(w, shift);
    }
  }

  // On to the next word, with a digit that straddles the two unless the bits came out even
  method CrossWord(s: array<char>, off: nat, start: nat, b: Radix, shift: nat, word: nat, bits: nat, next: Word,
                   ghost above: seq<Word>, ghost q0: int, ghost x: nat, ghost n: nat)
    returns (i: nat, w: nat, nbits: nat, ghost q: int)
    requires start <= n && off + n <= s.Length && b == Pow2(shift) && bits < shift < 64
    requires |above| > 0 && above[0] == next && Val(above) > 0
    requires Slicing(s[off + start..off + n], x, b, n, q0, start)
    requires Sliced(q0, word, bits, Val(above))
    modifies s
    ensures i <= start && CharsWithin(s, off + i, off + start)
    ensures Slicing(s[off + i..off + n], x, b, n, q, i)
    ensures Sliced(q, w, nbits, Val(above[1..]))
  {
    hide Pow2, Val, Slicing, Sliced, DigitChar, BitAnd, Shr, Straddle;
    i, q := start, q0;
    if bits == 0 {
      SliceNextWord(q0, word, above);
      w, nbits := next, 64;
    } else {
      SlicedPositive(q0, word, bits, Val(above));
      SlicedBelow(q0, word, bits, Val(above));
      SliceStraddle(q0, word, bits, above, shift);
      MaskIsMod(Straddle(word, next, bits), shift);
      ShrIsDiv(next, shift - bits);
      w, nbits := Shr(next, shift - bits), 64 - (shift - bits);
      q := w + Pow2(nbits) * Val(above[1..]);
      PutDigit(s, off, i, b, BitAnd(Straddle(word, next, bits), Pow2(shift) - 1), q0, q, x, n);
      i := i - 1;
    }
  }

  lemma SlicedBelow(q: int, w: int, nbits: nat, rest: int)
    requires Sliced(q, w, nbits, rest)
    ensures 0 <= w < Pow2(nbits)
  {}

  lemma SlicingStart(x: nat, b: Radix, n: nat)
    requires x < Power(b, n)
    ensures Slicing("", x, b, n, x, n)
  {
    hide Converted;
    ConvertStart(x, b, n);
  }

  lemma AboveLeft(xs: seq<Word>, k: nat)
    requires Normal(xs) && k < |xs|
    ensures Val(xs[k..]) > 0
  {
    hide Val;
    assert xs[k..][|xs| - k - 1] == xs[|xs| - 1];
    NormalPositive(xs[k..]);
  }

  // The branch of natI2a for the bases that are powers of two
  method SliceBits(x: Nat, s: array<char>, off: nat, slen: nat, b: Radix, shift: nat) returns (i: nat)
    requires InBounds(x) && x.len > 0 && Printable(Words(x))
    requires b == Pow2(shift) && 0 < shift < 64
    requires off + slen <= s.Length && 0 <= Val(Words(x)) < Power(b, slen)
    modifies s
    ensures i <= slen && CharsWithin(s, off + i, off + slen)
    ensures Slicing(s[off + i..off + slen], Val(old(Words(x))), b, slen, 0, i)
    ensures old(Words(x)) == [0] ==> i == slen
  {
    hide Pow2, Val, Slicing, Sliced, DigitChar, BitAnd, Shr, BitOr, Shl;
    ghost var xs, v := Words(x), Val(Words(x));
    i := slen;
    var w: nat, nbits: nat := x.data[x.off], 64;
    ghost var q := v;
    SliceStart(xs);
    SlicingStart(v, b, slen);
    assert s[off + i..off + slen] == "";
    for k := 1 to x.len
      invariant i <= slen && CharsWithin(s, off + i, off + slen)
      invariant Slicing(s[off + i..off + slen], v, b, slen, q, i)
      invariant k == 1 ==> i == slen && w == xs[0]
      invariant Sliced(q, w, nbits, Val(xs[k..]))
    {
      AboveLeft(xs, k);
      assert xs[k..][0] == xs[k] && xs[k..][1..] == xs[k + 1..];
      i, w, nbits, q := SliceWord(s, off, i, b, shift, w, nbits, Val(xs[k..]), q, v, slen);
      i, w, nbits, q := CrossWord(s, off, i, b, shift, w, nbits, x.data[x.off + k], xs[k..], q, v, slen);
    }
    ValEmpty(xs[x.len..]);
    i := SliceLast(s, off, i, b, shift, w, nbits, q, v, slen);
  }

  // ---- natI2a ------------------------------------------------------------------------------

  // The digits from i on, once everything has been written and the one at i is not '0'
  lemma {:induction false} LeadingZeros(x: nat, b: Radix, n: nat, i: nat)
    requires i <= n && x < Power(b, n) && forall k :: 0 <= k < i ==> Digits(x, b, n)[k] == '0'
    ensures x < Power(b, n - i) && Digits(x, b, n)[i..] == Digits(x, b, n - i)
  {
    hide Digits, Power;
    if i > 0 {
      LeadingDigit(x, b, n);
      assert forall k :: 0 <= k < n - 1 ==> Digits(x, b, n)[1..][k] == Digits(x, b, n)[k + 1];
      LeadingZeros(x, b, n - 1, i - 1);
      assert Digits(x, b, n)[1..][i - 1..] == Digits(x, b, n)[i..];
    }
  }

  // Stripped of its leading zeros, a padded digit string is the numeral.
  lemma Stripped(x: nat, b: Radix, n: nat, i: nat)
    requires i < n && x < Power(b, n) && forall k :: 0 <= k < i ==> Digits(x, b, n)[k] == '0'
    requires Digits(x, b, n)[i] != '0'
    ensures Digits(x, b, n)[i..] == Text(x, b)
  {
    hide Digits, Power, Text;
    LeadingZeros(x, b, n, i);
    LeadingDigit(x, b, n - i);
    assert Digits(x, b, n)[i..][0] == Digits(x, b, n)[i];
    NoPadding(x, b, n - i);
  }

  lemma SlicesAreText(tail: string, x: nat, b: Radix, n: nat, i: nat)
    requires Slicing(tail, x, b, n, 0, i) && x > 0 && x < Power(b, n)
    ensures tail == Text(x, b)
  {
    hide Power, Text;
    ZeroDigits(b, i);
    hide Digits;
    var s := Digits(x, b, n);
    assert s == Digits(0, b, i) + tail;
    assert s[i] == tail[0] && s[i..] == tail;
    Stripped(x, b, n, i);
  }

  // Every conversion by division: padded digits, of which the leading zeros are skipped; nothing
  // is left of the digits of zero.
  method DivideToDigits(x: Nat, s: array<char>, slen: nat, b: Radix) returns (i: nat)
    requires InBounds(x) && Printable(Words(x)) && x.len > 0
    requires slen + 1 == s.Length && s[slen] == '\0' && 0 <= Val(Words(x)) < Power(b, slen)
    modifies s
    ensures i <= slen && s[i..slen] == Written(Val(old(Words(x))), b)
    ensures slen > 0 && Val(old(Words(x))) < Power(b, slen - 1) ==> i > 0
  {
    hide Val, Power, Digits, Text, TableOk, Printable;
    ghost var v: nat := Val(Words(x));
    var bb, ndigits := MaxPow(b);
    var table := Divisors(x.len, b, ndigits, bb);
    ConvertWords(x, s, 0, slen, b, ndigits, bb, table);
    ghost var t := Digits(v, b, slen);
    assert s[0..slen] == t;
    i := 0;
    while s[i] == '0'
      invariant 0 <= i <= slen && forall k :: 0 <= k < i ==> t[k] == '0'
      decreases slen - i
    {
      assert s[0..slen][i] == s[i];
      i := i + 1;
    }
    assert i < slen ==> s[0..slen][i] == s[i];
    assert s[i..slen] == t[i..];
    Skipped(v, b, slen, i);
  }

  // The digits that are printed: none for zero
  function Written(v: nat, b: Radix): string {
    if v == 0 then "" else Text(v, b)
  }

  lemma Skipped(v: nat, b: Radix, n: nat, i: nat)
    requires i <= n && v < Power(b, n) && forall k :: 0 <= k < i ==> Digits(v, b, n)[k] == '0'
    requires i < n ==> Digits(v, b, n)[i] != '0'
    ensures Digits(v, b, n)[i..] == Written(v, b)
    ensures n > 0 && v < Power(b, n - 1) ==> i > 0
  {
    hide Digits, Power, Text;
    LeadingZeros(v, b, n, i);
    if n > 0 { LeadingDigit(v, b, n); }
    if i == n {
      NoPlaces(b);
    } else {
      if v == 0 { ZeroDigits(b, n); }
      Stripped(v, b, n, i);
    }
  }

  lemma NoPlaces(b: Radix)
    ensures Power(b, 0) == 1
  {}

  // b & -b is b exactly for the powers of two.
  predicate PowerOfTwo(b: Word) { b == BitAnd(b, Sub64(0, b)) }

  lemma PowerOfTwoShift(b: Radix)
    requires PowerOfTwo(b)
    ensures b == Pow2(Ctz(b)) && 0 < Ctz(b) < 64
  {
    NegatedWord(b);
    FirstPower(Ctz(b));
  }

  lemma FirstPower(k: nat)
    ensures Pow2(k) >= 2 ==> k > 0
  {}

  lemma PowersAreSliced(b: Radix)
    ensures PowerOfTwo(b) <==> exists k :: b == Pow2(k)
  {
    NegatedWord(b);
    if k :| b == Pow2(k) { CtzOfPower(k); }
  }

  lemma {:induction false} CtzOfPower(k: nat)
    ensures Ctz(Pow2(k)) == k
  {
    if k > 0 { CtzOfPower(k - 1); }
  }

  // Either way of writing the digits, into the last places of the buffer
  method WriteDigits(x: Nat, s: array<char>, b: Radix, places: nat, sign: nat) returns (i: nat)
    requires InBounds(x) && Printable(Words(x)) && x.len > 0 && sign <= 1
    requires places + sign + 1 == s.Length && s[places + sign] == '\0' && 0 <= Val(Words(x)) < Power(b, places)
    modifies s
    ensures sign <= i <= places + sign && s[i..places + sign] == Written(Val(old(Words(x))), b)
  {
    hide Val, Power, Pow2, Text, PowerOfTwo, Ctz, TrailingZeros64, Slicing, Printable;
    ghost var v := Val(Words(x));
    MorePlaces(b, places, sign);
    if PowerOfTwo(b) {
      PowerOfTwoShift(b);
      OnlyZeroIsZero(Words(x));
      var k := SliceBits(x, s, sign, places, b, TrailingZeros64(b));
      if v > 0 { SlicesAreText(s[sign + k..sign + places], v, b, places, k); }
      i := sign + k;
    } else {
      i := DivideToDigits(x, s, places + sign, b);
    }
  }

  lemma OnlyZeroIsZero(s: seq<Word>)
    requires Printable(s) && |s| > 0
    ensures Val(s) == 0 <==> s == [0]
    ensures Normal(s) <==> Val(s) != 0
  {
    if s == [0] { ValOne(s); } else { NormalPositive(s); }
  }

  lemma MorePlaces(b: Radix, n: nat, sign: nat)
    ensures Power(b, n) <= Power(b, n + sign)
    decreases sign
  {
    if sign > 0 {
      MorePlaces(b, n, sign - 1);
      PowerPositive(b, n + sign - 1);
      MulMono(1, b, Power(b, n + sign - 1));
    }
  }

  // places stands for the digit estimate of line 268. The numeral is printed, with its sign,
  // exactly for the normalised numbers that are not empty: "0" without a sign for the empty one,
  // and nothing but the sign for the one word 0.
  method NatI2a(x: Nat, neg: bool, b: Radix, places: nat) returns (text: string)
    requires InBounds(x) && (Normal(Words(x)) || Words(x) == [0])
    requires Power(b, places) >= Pow2(WordsBitLen(Words(x)))
    ensures Val(Words(x)) >= 0
    ensures text == if x.len == 0 then "0" else (if neg then "-" else "") + Written(Val(Words(x)), b)
    ensures x.len > 0 ==> (text == (if neg then "-" else "") + Text(Val(Words(x)), b) <==> Normal(Words(x)))
  {
    hide Val, Power, Pow2, Text, WordsBitLen, Normal;
    PlacesSuffice(Words(x));
    if x.len == 0 { return "0"; }
    ghost var v := Val(Words(x));
    OnlyZeroIsZero(Words(x));
    var sign: nat := if neg then 1 else 0;
    var slen := places + sign;
    var s := new char[slen + 1](_ => '\0');
    var i := WriteDigits(x, s, b, places, sign);
    ghost var digits := s[i..slen];
    if neg {
      i := i - 1;
      s[i] := '-';
    }
    text := s[i..slen];
    assert text == (if neg then "-" else "") + digits;
    assert |text| == (if neg then 1 else 0) + |digits|;
  }

  lemma PlacesSuffice(s: seq<Word>)
    requires Printable(s)
    ensures 0 <= Val(s) < Pow2(WordsBitLen(s))
  {
    hide Pow2, WordsBitLen;
    if s == [0] { ValOne(s); } else { BitLenBrackets(s); }
  }
}
