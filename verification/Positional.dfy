/** Positional notation: what the digit strings of cmake/bigint/src/natconv.c stand for. */
module Positional {
  import opened Bits

  // MaxBase: ten digits and two alphabets
  const MAX_BASE: nat := 62

  type Radix = b: nat | 2 <= b <= MAX_BASE witness 2

  function Power(b: nat, n: nat): (p: nat) {
    if n == 0 then 1 else b * Power(b, n - 1)
  }

  lemma {:induction false} PowerPositive(b: nat, n: nat)
    requires b > 0
    ensures Power(b, n) > 0
  {
    if n > 0 {
      PowerPositive(b, n - 1);
      MulMono(1, b, Power(b, n - 1));
    }
  }

  lemma {:induction false} PowerAdd(b: nat, m: nat, n: nat)
    ensures Power(b, m + n) == Power(b, m) * Power(b, n)
  {
    if m > 0 {
      PowerAdd(b, m - 1, n);
      MulAssoc(b, Power(b, m - 1), Power(b, n));
    }
  }

  lemma {:induction false} PowerOfPower(b: nat, m: nat, n: nat)
    ensures Power(Power(b, m), n) == Power(b, m * n)
  {
    if n > 0 {
      PowerOfPower(b, m, n - 1);
      assert m * n == m + m * (n - 1);
      assert m * (n - 1) >= 0 by { MulMono(0, m, n - 1); }
      PowerAdd(b, m, m * (n - 1));
    } else {
      assert m * n == 0;
    }
  }

  // A larger power has a larger exponent.
  lemma PowerExponent(b: nat, m: nat, n: nat)
    requires b > 0 && Power(b, m) < Power(b, n)
    ensures m < n
  {
    if m >= n {
      PowerAdd(b, m - n, n);
      PowerPositive(b, m - n);
      MulMono(1, Power(b, m - n), Power(b, n));
    }
  }

  // digits[d], the character in position d of 0-9, a-z, A-Z
  function DigitChar(d: nat): char
    requires d < MAX_BASE
  {
    if d < 10 then ('0' as int + d) as char
    else if d < 36 then ('a' as int + d - 10) as char
    else ('A' as int + d - 36) as char
  }

  const LOWER: string := "abcdefghijklmnopqrstuvwxyz"
  const UPPER: string := "ABCDEFGHIJKLMNOPQRSTUVWXYZ"
  const DIGITS: string := "0123456789" + LOWER + UPPER

  // The table of digits, letter by letter
  lemma DigitsInOrder(d: nat)
    requires d < MAX_BASE
    ensures |DIGITS| == MAX_BASE && DigitChar(d) == DIGITS[d]
  {
    if d >= 36 {
      Letters(d - 36);
    } else if d >= 10 {
      Letters(d - 10);
    }
  }

  lemma Letters(i: nat)
    requires i < 26
    ensures LOWER[i] == ('a' as int + i) as char && UPPER[i] == ('A' as int + i) as char
  {}

  function DigitValue(c: char): nat {
    if '0' <= c <= '9' then c as int - '0' as int
    else if 'a' <= c <= 'z' then c as int - 'a' as int + 10
    else if 'A' <= c <= 'Z' then c as int - 'A' as int + 36
    else 0
  }

  lemma DigitRoundTrip(d: nat)
    requires d < MAX_BASE
    ensures DigitValue(DigitChar(d)) == d
    ensures DigitChar(d) == '0' <==> d == 0
    ensures d < 10 ==> DigitChar(d) == ('0' as int + d) as char
  {}

  // The n low digits of v, most significant first, padded with zeros
  function Digits(v: nat, b: Radix, n: nat): (s: string)
    ensures |s| == n
  {
    if n == 0 then "" else Digits(v / b, b, n - 1) + [DigitChar(v % b)]
  }

  // The usual numeral: no leading zero, "0" for zero
  function Text(v: nat, b: Radix): (s: string)
    ensures |s| > 0
  {
    if v < b then [DigitChar(v)]
    else
      Smaller(v, b);
      Text(v / b, b) + [DigitChar(v % b)]
  }

  lemma Smaller(v: nat, b: nat)
    requires b >= 2 && v > 0
    ensures v / b < v
  {
    DivBounds(v, b);
    if v / b >= v { MulMono(2, b, v / b); }
  }

  lemma DigitsStep(v: nat, b: Radix, n: nat)
    ensures v == (v / b) * b + v % b
    ensures Digits(v, b, n) == if n == 0 then "" else Digits(v / b, b, n - 1) + [DigitChar(v % b)]
  {
    MulMono(1, b, v + 1);
    LeadingParts(v, v + 1, b);
  }

  function Number(s: string, b: nat): (v: nat) {
    if |s| == 0 then 0 else Number(s[..|s| - 1], b) * b + DigitValue(s[|s| - 1])
  }

  lemma NumberSnoc(s: string, d: nat, b: nat)
    requires d < MAX_BASE
    ensures Number(s + [DigitChar(d)], b) == Number(s, b) * b + d
  {
    DigitRoundTrip(d);
    hide DigitChar, DigitValue;
    assert (s + [DigitChar(d)])[..|s|] == s;
  }

  // Reading a padded digit string back gives the number, if it fits.
  lemma {:induction false} DigitsReadBack(v: nat, b: Radix, n: nat)
    requires v < Power(b, n)
    ensures Number(Digits(v, b, n), b) == v
  {
    hide *;
    if n == 0 {
      NumberOfNone(v, b);
    } else {
      PowerStep(b, n);
      QuotientFits(v, b, Power(b, n - 1));
      DigitsReadBack(v / b, b, n - 1);
      ReadStep(v, b, n);
    }
  }

  lemma PowerStep(b: nat, n: nat)
    ensures Power(b, n) == if n == 0 then 1 else b * Power(b, n - 1)
  {}

  lemma ReadStep(v: nat, b: Radix, n: nat)
    requires n > 0 && Number(Digits(v / b, b, n - 1), b) == v / b
    ensures Number(Digits(v, b, n), b) == v
  {
    hide *;
    DigitsStep(v, b, n);
    NumberSnoc(Digits(v / b, b, n - 1), v % b, b);
  }

  lemma NumberOfNone(v: nat, b: Radix)
    ensures Number("", b) == 0
    ensures v < Power(b, 0) ==> Number(Digits(v, b, 0), b) == v
  {}

  lemma QuotientFits(v: nat, b: nat, p: nat)
    requires b > 0 && v < b * p
    ensures v / b < p
  {
    DivBounds(v, b);
    CancelLt(v / b, p, b);
  }

  lemma {:induction false} TextReadBack(v: nat, b: Radix)
    ensures Number(Text(v, b), b) == v
    decreases v
  {
    hide DigitChar, Number;
    NumberOfNone(v, b);
    if v < b {
      NumberSnoc("", v, b);
      assert [DigitChar(v)] == "" + [DigitChar(v)];
    } else {
      Smaller(v, b);
      TextReadBack(v / b, b);
      NumberSnoc(Text(v / b, b), v % b, b);
    }
  }

  // Different numbers have different numerals.
  lemma TextInjective(v: nat, w: nat, b: Radix)
    requires Text(v, b) == Text(w, b)
    ensures v == w
  {
    TextReadBack(v, b);
    TextReadBack(w, b);
  }

  // The digits of q * b^k + r are the digits of q followed by k digits of r.
  lemma DigitsSplit(v: nat, q: nat, r: nat, b: Radix, n: nat, k: nat)
    requires r < Power(b, k) && v == q * Power(b, k) + r
    ensures Digits(v, b, n + k) == Digits(q, b, n) + Digits(r, b, k)
  {
    hide Power, Digits;
    JoinedSplit(v, q, r, b, n, k);
  }

  // v is q followed by the k digits of r.
  ghost predicate Joined(v: nat, q: nat, r: nat, b: Radix, k: nat) {
    r < Power(b, k) && v == q * Power(b, k) + r
  }

  // v' is v without its last digit d.
  ghost predicate Shortened(v: nat, v': nat, d: nat, b: Radix) {
    v' == v / b && d == v % b
  }

  lemma {:induction false} JoinedSplit(v: nat, q: nat, r: nat, b: Radix, n: nat, k: nat)
    requires Joined(v, q, r, b, k)
    ensures Digits(v, b, n + k) == Digits(q, b, n) + Digits(r, b, k)
    decreases k
  {
    hide *;
    if k == 0 {
      NoMoreDigits(v, q, r, b, n);
    } else {
      var v', r', d := WithoutLast(v, q, r, b, k);
      JoinedSplit(v', q, r', b, n, k - 1);
      SplitStep(v, v', q, r, r', d, b, n, k);
    }
  }

  lemma WithoutLast(v: nat, q: nat, r: nat, b: Radix, k: nat) returns (v': nat, r': nat, d: nat)
    requires k > 0 && Joined(v, q, r, b, k)
    ensures Joined(v', q, r', b, k - 1) && Shortened(v, v', d, b) && Shortened(r, r', d, b)
  {
    hide Power, Joined, Shortened;
    PowerStep(b, k);
    var p, bp := Power(b, k - 1), Power(b, k);
    JoinedIs(v, q, r, b, k, bp);
    LastDigit(v, q, r, b, p, bp);
    v', r', d := v / b, r / b, v % b;
    JoinedIs(v', q, r', b, k - 1, p);
    ShortenedIs(v, b);
    ShortenedIs(r, b);
  }

  lemma JoinedIs(v: nat, q: nat, r: nat, b: Radix, k: nat, p: nat)
    requires p == Power(b, k)
    ensures Joined(v, q, r, b, k) <==> r < p && v == q * p + r
  {}

  lemma ShortenedIs(v: nat, b: Radix)
    ensures Shortened(v, v / b, v % b, b)
  {}

  // The last digit of q * (b * p) + r is that of r.
  lemma LastDigit(v: nat, q: nat, r: nat, b: nat, p: nat, bp: nat)
    requires b > 0 && bp == b * p && r < bp && v == q * bp + r
    ensures v / b == q * p + r / b && v % b == r % b && r / b < p
  {
    QuotientFits(r, b, p);
    DivBounds(r, b);
    assert (q * p + r / b) * b == q * (b * p) + (r / b) * b;
    DivModUnique(v, b, q * p + r / b, r % b);
  }

  lemma NoMoreDigits(v: nat, q: nat, r: nat, b: Radix, n: nat)
    requires Joined(v, q, r, b, 0)
    ensures Digits(v, b, n + 0) == Digits(q, b, n) + Digits(r, b, 0)
  {}

  lemma SplitStep(v: nat, v': nat, q: nat, r: nat, r': nat, d: nat, b: Radix, n: nat, k: nat)
    requires k > 0 && Shortened(v, v', d, b) && Shortened(r, r', d, b)
    requires Digits(v', b, n + (k - 1)) == Digits(q, b, n) + Digits(r', b, k - 1)
    ensures Digits(v, b, n + k) == Digits(q, b, n) + Digits(r, b, k)
  {
    hide Digits;
    DigitsStep(v, b, n + k);
    DigitsStep(r, b, k);
  }

  lemma {:induction false} ZeroDigits(b: Radix, n: nat)
    ensures forall i :: 0 <= i < n ==> Digits(0, b, n)[i] == '0'
  {
    if n > 0 {
      DivModUnique(0, b, 0, 0);
      ZeroDigits(b, n - 1);
    }
  }

  // The leading padded digit is '0' exactly for the numbers that fit in one digit less.
  lemma LeadingDigit(v: nat, b: Radix, n: nat)
    requires n > 0 && v < Power(b, n)
    ensures Digits(v, b, n)[0] == '0' <==> v < Power(b, n - 1)
    ensures v < Power(b, n - 1) ==> Digits(v, b, n)[1..] == Digits(v, b, n - 1)
  {
    var p := Power(b, n - 1);
    PowerPositive(b, n - 1);
    LeadingParts(v, b, p);
    hide Power, Digits, DigitChar;
    DigitsSplit(v, v / p, v % p, b, 1, n - 1);
    DigitRoundTrip(v / p);
    OneDigit(v / p, b);
    assert v < p ==> v % p == v;
  }

  lemma LeadingParts(v: nat, b: nat, p: nat)
    requires p > 0 && v < b * p
    ensures v == (v / p) * p + v % p && 0 <= v / p < b && 0 <= v % p < p
    ensures v / p == 0 <==> v < p
    ensures v < p ==> v % p == v
  {
    DivBounds(v, p);
    QuotientFits(v, p, b);
    if v < p { DivModUnique(v, p, 0, v); }
  }

  lemma OneDigit(v: nat, b: Radix)
    requires v < b
    ensures Digits(v, b, 1) == [DigitChar(v)]
  {
    DivModUnique(v, b, 0, v);
    assert Digits(v / b, b, 0) == "";
  }

  // Padded digits without a leading zero are the numeral.
  lemma {:induction false} NoPadding(v: nat, b: Radix, n: nat)
    requires n > 0 && Power(b, n - 1) <= v < Power(b, n)
    ensures Digits(v, b, n) == Text(v, b)
  {
    hide DigitChar;
    if n == 1 {
      OneDigit(v, b);
    } else {
      QuotientFits(v, b, Power(b, n - 1));
      AtLeastQuotient(v, b, Power(b, n - 2));
      PowerPositive(b, n - 2);
      MulMono(1, Power(b, n - 2), b);
      NoPadding(v / b, b, n - 1);
    }
  }

  lemma AtLeastQuotient(v: nat, b: nat, p: nat)
    requires b > 0 && v >= b * p
    ensures v / b >= p
  {
    DivBounds(v, b);
    CancelLt(p, v / b + 1, b);
  }
}
