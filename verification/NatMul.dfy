/** cmake/bigint/src/natmul.c, third part: products of numbers of any two lengths, with the addVW of
    the code or the repaired one. */
module Multiplication {
  import opened Bits
  import opened Nats
  import opened Ripples
  import opened KaratsubaValue
  import opened MulValue
  import opened MulBasic
  import opened KaratsubaMul

  // n halved as often as it takes to come down to the threshold, and doubled as often again: the
  // low i bits of n are cleared.
  method KaratsubaLen(n0: nat, threshold: nat) returns (k: nat, ghost i: nat)
    ensures k == n0 / Pow2(i) * Pow2(i) && n0 / Pow2(i) <= threshold
    ensures i > 0 ==> n0 / Pow2(i - 1) > threshold
    ensures k == BlockLen(n0, threshold) && k <= n0 && (n0 > 0 && threshold > 0 ==> 0 < k)
  {
    hide Pow2;
    var n: nat := n0;
    var shift := 0;
    NoHalving(n0);
    while n > threshold
      invariant n == n0 / Pow2(shift)
      invariant shift > 0 ==> n0 / Pow2(shift - 1) > threshold
      invariant n0 > 0 && threshold > 0 ==> n > 0
      invariant BlockLen(n0, threshold) == BlockLen(n, threshold) * Pow2(shift)
    {
      HalvedAgain(n0, shift);
      DoubledAgain(n, threshold, Pow2(shift));
      Pow2Double(shift);
      n := n / 2;
      shift := shift + 1;
    }
    ClearedBits(n0, Pow2(shift));
    k, i := n * Pow2(shift), shift;
  }

  lemma HalvedAgain(n: nat, i: nat)
    ensures n / Pow2(i) / 2 == n / Pow2(i + 1)
  {
    DivDiv(n, Pow2(i), 2);
    Pow2Double(i);
  }

  lemma DoubledAgain(n: nat, threshold: nat, p: int)
    requires n > threshold
    ensures BlockLen(n, threshold) * p == BlockLen(n / 2, threshold) * (2 * p)
  {
    TwiceEither(BlockLen(n / 2, threshold), p);
  }

  lemma TwiceEither(q: int, p: int)
    ensures (2 * q) * p == q * (2 * p)
  {}

  lemma ClearedBits(n: nat, p: nat)
    requires p > 0
    ensures 0 <= n / p * p <= n && (n / p > 0 ==> n / p * p > 0)
  {
    DivBounds(n, p);
    if n / p > 0 { MulMono(1, n / p, p); }
  }

  lemma NoHalving(n: nat)
    ensures n == n / Pow2(0) && Pow2(0) == 1
  {}

  // ---- addAt --------------------------------------------------------------------------------

  // z += x * W^i. Words of x past the end of z are not read; for the sum to fit they are zero.
  method AddAt(z: Nat, x: Nat, i: nat, how: Ripple)
    requires InBounds(z) && InBounds(x) && z.data != x.data && i <= z.len
    modifies z.data
    ensures OnlyWithin(z.data, z.off + i, z.off + z.len)
    ensures var zs, xs := old(Words(z))[i..], Words(x)[..Min(x.len, z.len - i)];
      Val(old(Words(z))) + Pow(i) * Val(Words(x)) < Pow(z.len) ==>
        (Val(Words(z)) == Val(old(Words(z))) + Pow(i) * Val(Words(x)) <==> how.Repaired? || SumExact(zs, xs))
    ensures x.len <= z.len - i && (Normal(Words(x)) || Val(Words(x)) == 0) ==>
      Val(Words(z)) == AddedAt(how, old(Val(Words(z))), Val(Words(x)), i, z.len)
  {
    hide Val, Pow, SumExact, Added, AddedAt, Normal, OnlyWithin, AddsInto;
    ghost var z0, xs := Words(z), Words(x);
    ghost var n := Min(x.len, z.len - i);
    AddAtWords(z, x, i, how);
    if Val(z0) + Pow(i) * Val(xs) < Pow(z.len) { PlacedSum(how, z0, Words(z), xs, i, n, Pow(i) * Val(xs)); }
    PlacedValue(how, z0, Words(z), xs, i, n);
  }

  // The words zs become zs', which is zs plus xs in the sense of the ripple.
  ghost predicate AddsInto(how: Ripple, zs': seq<Word>, zs: seq<Word>, xs: seq<Word>) {
    && |zs'| == |zs| && |xs| <= |zs| && Val(zs') == Added(how, Val(zs), Val(xs), |xs|, |zs| - |xs|)
    && (Val(zs) + Val(xs) < Pow(|zs|) ==> (Val(zs') == Val(zs) + Val(xs) <==> how.Repaired? || SumExact(zs, xs)))
  }

  method AddAtWords(z: Nat, x: Nat, i: nat, how: Ripple)
    requires InBounds(z) && InBounds(x) && z.data != x.data && i <= z.len
    modifies z.data
    ensures OnlyWithin(z.data, z.off + i, z.off + z.len)
    ensures Words(z)[..i] == old(Words(z))[..i]
    ensures AddsInto(how, Words(z)[i..], old(Words(z))[i..], Words(x)[..Min(x.len, z.len - i)])
  {
    hide Val, Pow, SumExact, SumError, Added;
    ghost var z0, xs := Words(z), Words(x);
    var n := Min(x.len, z.len - i);
    assert First(Part(z, i, z.len), z.len - i) == z0[i..] && First(x, n) == xs[..n];
    if x.len > 0 {
      ghost var _ := AddThenRipple(Part(z, i, z.len), x, n, z.len - i, how);
    } else {
      NothingAdded(how, z0[i..], xs[..n]);
    }
    assert First(Part(z, i, z.len), z.len - i) == Words(z)[i..];
  }

  lemma NothingAdded(how: Ripple, zs: seq<Word>, xs: seq<Word>)
    requires |xs| == 0
    ensures SumExact(zs, xs) && Val(xs) == 0 && Val(zs) == Added(how, Val(zs), Val(xs), 0, |zs|)
  {
    PowZero();
    ValBound(zs);
  }

  lemma PlacedSum(how: Ripple, z0: seq<Word>, z1: seq<Word>, xs: seq<Word>, i: nat, n: nat, t: int)
    requires i <= |z0| == |z1| && n == Min(|xs|, |z0| - i) && z0[..i] == z1[..i]
    requires AddsInto(how, z1[i..], z0[i..], xs[..n]) && IsScaled(t, Pow(i), Val(xs)) && Val(z0) + t < Pow(|z0|)
    ensures Val(z1) == Val(z0) + t <==> how.Repaired? || SumExact(z0[i..], xs[..n])
  {
    hide *;
    ScaledInside(z0, xs, i, t);
    TailSum(how, z1, z0, xs, i, n);
    SplitAt(z0, i);
    SplitAt(z1, i);
    TopSum(Val(z0), Val(z1), Val(z0[..i]), Val(z0[i..]), Val(z1[i..]), Val(xs), t, Pow(i));
  }

  lemma TailSum(how: Ripple, z1: seq<Word>, z0: seq<Word>, xs: seq<Word>, i: nat, n: nat)
    requires i <= |z0| == |z1| && n == Min(|xs|, |z0| - i) && Val(z0[i..]) + Val(xs) < Pow(|z0| - i)
    requires AddsInto(how, z1[i..], z0[i..], xs[..n])
    ensures Val(z1[i..]) == Val(z0[i..]) + Val(xs) <==> how.Repaired? || SumExact(z0[i..], xs[..n])
  {
    hide Val, Pow, AddsInto, SumExact;
    ReadPart(z0, xs, i, n);
    IntoSum(how, z1[i..], z0[i..], xs[..n]);
  }

  ghost predicate IsScaled(t: int, p: int, x: int) { t == p * x }

  lemma ScaledInside(z: seq<Word>, xs: seq<Word>, i: nat, t: int)
    requires i <= |z| && IsScaled(t, Pow(i), Val(xs)) && Val(z) + t < Pow(|z|)
    ensures Val(z[i..]) + Val(xs) < Pow(|z| - i)
  {
    hide Val, Pow;
    SumInside(z, xs, i);
  }

  ghost predicate IsSplit(v: int, low: int, high: int, p: int) {
    0 <= low < p && v == low + p * high
  }

  lemma SplitAt(s: seq<Word>, i: nat)
    requires i <= |s|
    ensures IsSplit(Val(s), Val(s[..i]), Val(s[i..]), Pow(i))
  {
    hide Val, Pow;
    ValSplit(s, i);
    ValBound(s[..i]);
  }

  lemma TopSum(z0: int, z1: int, low: int, v: int, r: int, x: int, t: int, p: int)
    requires IsSplit(z0, low, v, p) && IsSplit(z1, low, r, p) && IsScaled(t, p, x)
    ensures z1 == z0 + t <==> r == v + x
  {
    AddedTop(z0, low, v, x, r, p);
  }

  lemma IntoSum(how: Ripple, zs': seq<Word>, zs: seq<Word>, xs: seq<Word>)
    requires |xs| <= |zs| && AddsInto(how, zs', zs, xs) && Val(zs) + Val(xs) < Pow(|zs|)
    ensures Val(zs') == Val(zs) + Val(xs) <==> how.Repaired? || SumExact(zs, xs)
  {
    hide Val, Pow, SumExact, Added;
  }

  lemma IntoValue(how: Ripple, zs': seq<Word>, zs: seq<Word>, xs: seq<Word>)
    requires AddsInto(how, zs', zs, xs) && (Normal(xs) || Val(xs) == 0)
    ensures var n := WordLen(Val(xs)); n <= |zs| && Val(zs') == Added(how, Val(zs), Val(xs), n, |zs| - n)
  {
    LenDoesNotMatter(how, zs, xs);
    hide Val, Pow, SumExact, Added, Normal;
  }

  // With all words of x inside z, and no leading zeros, or for the number 0
  lemma PlacedValue(how: Ripple, z0: seq<Word>, z1: seq<Word>, xs: seq<Word>, i: nat, n: nat)
    requires i <= |z0| == |z1| && n == Min(|xs|, |z0| - i) && z0[..i] == z1[..i]
    requires AddsInto(how, z1[i..], z0[i..], xs[..n])
    ensures |xs| <= |z0| - i && (Normal(xs) || Val(xs) == 0) ==> Val(z1) == AddedAt(how, Val(z0), Val(xs), i, |z0|)
  {
    hide Val, Pow, AddsInto, SumExact, Added, AddedAt, IsSplit, Normal, WordLen;
    if |xs| <= |z0| - i && (Normal(xs) || Val(xs) == 0) {
      TakeAll(xs);
      IntoValue(how, z1[i..], z0[i..], xs);
      SplitAt(z0, i);
      SplitAt(z1, i);
      PlacedAt(how, Val(z0), Val(z1), Val(xs), i, |z0|, Val(z0[i..]), WordLen(Val(xs)), Val(z0[..i]), Val(z1[i..]));
    }
  }

  lemma PlacedAt(how: Ripple, z0: int, z1: int, t: int, i: nat, len: nat, v: int, n: nat, low: int, r: int)
    requires i <= len && IsSplit(z0, low, v, Pow(i)) && IsSplit(z1, low, r, Pow(i)) && n == WordLen(t) <= len - i
    requires r == Added(how, v, t, n, len - i - n)
    ensures z1 == AddedAt(how, z0, t, i, len)
  {
    hide Pow, WordLen, Added;
    LowHigh(z0, Pow(i), low, v);
  }

  lemma LenDoesNotMatter(how: Ripple, zs: seq<Word>, xs: seq<Word>)
    requires |xs| <= |zs| && (Normal(xs) || Val(xs) == 0)
    ensures var n := WordLen(Val(xs));
      n <= |zs| && Added(how, Val(zs), Val(xs), |xs|, |zs| - |xs|) == Added(how, Val(zs), Val(xs), n, |zs| - n)
  {
    hide Added, Val, Pow;
    if Normal(xs) {
      LenOfNormal(xs);
    } else {
      AddsNothing(how, Val(zs), |xs|, |zs|);
      AddsNothing(how, Val(zs), 0, |zs|);
    }
  }

  lemma AddsNothing(how: Ripple, z: int, n: nat, len: nat)
    requires n <= len
    ensures Added(how, z, 0, n, len - n) == z && WordLen(0) == 0
  {
    hide Pow;
    Split(z, Pow(n));
  }

  lemma ReadPart(z: seq<Word>, xs: seq<Word>, i: nat, n: nat)
    requires i <= |z| && Val(z[i..]) + Val(xs) < Pow(|z| - i) && n == Min(|xs|, |z| - i)
    ensures Val(xs[..n]) == Val(xs)
  {
    ValBound(z[i..]);
    if n == |xs| {
      TakeAll(xs);
    } else {
      SmallHasZeros(xs, n);
      ZeroTail(xs, n);
    }
  }

  lemma SumInside(z: seq<Word>, xs: seq<Word>, i: nat)
    requires i <= |z| && Val(z) + Pow(i) * Val(xs) < Pow(|z|)
    ensures Val(z[i..]) + Val(xs) < Pow(|z| - i)
  {
    hide Val, Pow;
    ValSplit(z, i);
    ValBound(z[..i]);
    PowAdd(i, |z| - i);
    var p, q, a, b := Pow(i), Pow(|z| - i), Val(z[i..]), Val(xs);
    Shifted(p, a, b);
    assert p * (a + b) == (a + b) * p && p * q == q * p;
    CancelLt(a + b, q, p);
  }

  // ---- natMulAddWW --------------------------------------------------------------------------

  method NatMulAddWW(x: Nat, y: Word, r: Word) returns (z: Nat)
    requires InBounds(x)
    ensures fresh(z.data) && InBounds(z)
    ensures Val(Words(z)) == Val(Words(x)) * y + r
    ensures if x.len == 0 || y == 0 then Words(z) == [r] else
      Normal(Words(z)) && z.len <= x.len + 1 && z.off + x.len + 1 <= z.data.Length
      && Val(Block(z, 0, x.len + 1)) == Val(Words(z))
  {
    hide Val, Pow;
    var m := x.len;
    if m == 0 || y == 0 {
      z := NewWord(r);
      ValOne(Words(z));
      if m == 0 { ValEmpty(Words(x)); }
      return;
    }
    var w := NewLen(m + 1);
    var c := MulAddVWW(Part(w, 0, m), x, y, r);
    ghost var low := First(w, m);
    w.data[m] := c;
    assert Words(w) == low + [c] && First(x, m) == Words(x);
    ScaledAll(low, c, Words(x), y, r);
    z := NatNorm(w);
    assert Block(z, 0, m + 1) == Words(w);
  }

  lemma ScaledAll(low: seq<Word>, c: Word, xs: seq<Word>, y: Word, r: Word)
    requires Scaled(low, c, xs, y, r)
    ensures Val(low + [c]) == Val(xs) * y + r
  {
    ValSnoc(low, c);
  }

  // The operands for which natMul returns natNew(0): the shorter one, or y, is empty or the one word 0.
  predicate RawZero(xs: seq<Word>, ys: seq<Word>)
    decreases |xs| < |ys|
  {
    if |xs| < |ys| then RawZero(ys, xs) else |ys| == 0 || ys == [0]
  }

  // ---- natMul -------------------------------------------------------------------------------

  // What natMul stores for the value v: no leading zeros, except that 0 may be the one-word number
  // natNew(0); the storage goes on with zeros up to the operands' joint length.
  ghost predicate IsProduct(z: Nat, v: int, len: nat)
    requires InBounds(z)
    reads z.data
  {
    && Val(Words(z)) == v
    && (Normal(Words(z)) || Words(z) == [0])
    && (z.len <= len || Words(z) == [0])
    && (Val(Words(z)) > 0 ==> z.off + len <= z.data.Length && Val(Block(z, 0, len)) == Val(Words(z)))
  }

  lemma NormedProduct(z: Nat, r: Nat, v: int)
    requires InBounds(z) && r == z.(len := NormLen(Words(z))) && Val(Words(z)) == v
    ensures InBounds(r) && IsProduct(r, v, z.len)
  {
    NormLenMeans(Words(z));
    assert Words(r) == Words(z)[..NormLen(Words(z))];
    assert Block(r, 0, z.len) == Words(z);
  }

  method NatMul(x: Nat, y: Nat, how: Ripple) returns (z: Nat)
    requires InBounds(x) && InBounds(y)
    ensures fresh(z.data) && InBounds(z)
    ensures IsProduct(z, MulWords(how, Words(x), Words(y)), x.len + y.len)
    ensures how.Repaired? || MulRight(Words(x), Words(y)) ==> Val(Words(z)) == Val(Words(x)) * Val(Words(y))
    ensures if RawZero(Words(x), Words(y)) then Words(z) == [0] else Normal(Words(z))
    decreases x.len + y.len, if x.len < y.len then 6 else 5
  {
    hide Val, Pow, IsProduct, MulRight, MulWords;
    var m, n := x.len, y.len;
    ghost var xs, ys := Words(x), Words(y);
    MulCases(how, xs, ys);
    if m < n {
      z := NatMul(y, x, how);
    } else if n < KARATSUBA_THRESHOLD {
      z := MulShort(x, y);
    } else {
      z := MulLong(x, y, how);
    }
    ProductValue(z, MulWords(how, xs, ys), m + n);
  }

  lemma MulCases(how: Ripple, xs: seq<Word>, ys: seq<Word>)
    ensures |xs| < |ys| ==> MulWords(how, xs, ys) == MulWords(how, ys, xs) && RawZero(xs, ys) == RawZero(ys, xs)
    ensures |ys| <= |xs| && |ys| < KARATSUBA_THRESHOLD ==> MulWords(how, xs, ys) == Val(xs) * Val(ys)
    ensures how.Repaired? || MulRight(xs, ys) ==> MulWords(how, xs, ys) == Val(xs) * Val(ys)
  {
    if how.Repaired? || MulRight(xs, ys) { MulExact(how, xs, ys); }
    hide Val, Product, BlockValues, AddedAt, MulRight;
  }

  // Lines 158-168
  method MulShort(x: Nat, y: Nat) returns (z: Nat)
    requires InBounds(x) && InBounds(y) && y.len <= x.len && y.len < KARATSUBA_THRESHOLD
    ensures fresh(z.data) && InBounds(z)
    ensures IsProduct(z, Val(Words(x)) * Val(Words(y)), x.len + y.len)
    ensures if RawZero(Words(x), Words(y)) then Words(z) == [0] else Normal(Words(z))
  {
    hide Val, Pow, IsProduct;
    var m, n := x.len, y.len;
    if m == 0 || n == 0 {
      z := NewWord(0);
      ZeroProduct(z, Words(x), Words(y));
    } else if n == 1 {
      z := MulByWord(x, y);
    } else {
      var p := NewLen(m + n);
      BasicMul(p, x, y);
      z := NatNorm(p);
      NormedProduct(p, z, Val(Words(x)) * Val(Words(y)));
    }
  }

  lemma ProductValue(z: Nat, v: int, len: nat)
    requires InBounds(z) && IsProduct(z, v, len)
    ensures Val(Words(z)) == v && (Normal(Words(z)) || Val(Words(z)) == 0)
    ensures len > 0 ==> z.len <= len
  {
    if Words(z) == [0] { ValOne(Words(z)); }
  }

  // Lines 169-200: both operands have at least KARATSUBA_THRESHOLD words.
  method MulLong(x: Nat, y: Nat, how: Ripple) returns (z: Nat)
    requires InBounds(x) && InBounds(y) && KARATSUBA_THRESHOLD <= y.len <= x.len
    ensures fresh(z.data) && InBounds(z)
    ensures IsProduct(z, MulWords(how, Words(x), Words(y)), x.len + y.len) && Normal(Words(z))
    decreases x.len + y.len, 4
  {
    hide Val, Pow, IsProduct, MulWords;
    var p := ProductWords(x, y, how);
    z := NatNorm(p);
    NormedProduct(p, z, MulWords(how, Words(x), Words(y)));
  }

  // The product in x.len + y.len words of a buffer that karatsuba may use
  method ProductWords(x: Nat, y: Nat, how: Ripple) returns (p: Nat)
    requires InBounds(x) && InBounds(y) && KARATSUBA_THRESHOLD <= y.len <= x.len
    ensures fresh(p.data) && InBounds(p) && p.len == x.len + y.len
    ensures Val(Words(p)) == MulWords(how, Words(x), Words(y))
    decreases x.len + y.len, 3
  {
    hide Val, Pow, Product, MulWords, CrossWords;
    var m, n := x.len, y.len;
    ghost var shift: nat;
    var k: nat;
    k, shift := KaratsubaLen(n, KARATSUBA_THRESHOLD);
    var w := NewLen(Max(6 * k, m + n));
    LowProduct(w, x, y, k, how);
    p := Part(w, 0, m + n);
    LongWords(how, Words(x), Words(y), k);
    if k < n || m != n {
      CrossBlocks(p, x, y, k, how);
    }
  }

  // Lines 179-198 on values
  ghost function CrossWords(how: Ripple, low: int, xs: seq<Word>, ys: seq<Word>, k: nat): int
    requires 0 < k <= |ys| <= |xs|
  {
    var cross := MulWords(how, Normed(xs[..k]), ys[k..]);
    BlockValues(how, AddedAt(how, low, cross, k, |xs| + |ys|), xs, ys, k, k)
  }

  lemma LongWords(how: Ripple, xs: seq<Word>, ys: seq<Word>, k: nat)
    requires KARATSUBA_THRESHOLD <= |ys| <= |xs| && k == BlockLen(|ys|, KARATSUBA_THRESHOLD) && 0 < k
    ensures var low := Product(how, Val(xs[..k]), Val(ys[..k]), k);
      MulWords(how, xs, ys) == if k == |ys| == |xs| then low else CrossWords(how, low, xs, ys, k)
  {
    hide Val, Product, BlockValues, AddedAt;
  }

  lemma ZeroProduct(z: Nat, xs: seq<Word>, ys: seq<Word>)
    requires InBounds(z) && Words(z) == [0] && (|xs| == 0 || |ys| == 0)
    ensures IsProduct(z, Val(xs) * Val(ys), |xs| + |ys|)
  {
    ValOne(Words(z));
  }

  method MulByWord(x: Nat, y: Nat) returns (z: Nat)
    requires InBounds(x) && InBounds(y) && y.len == 1
    ensures fresh(z.data) && InBounds(z)
    ensures IsProduct(z, Val(Words(x)) * Val(Words(y)), x.len + y.len)
    ensures x.len > 0 ==> if Words(y) == [0] then Words(z) == [0] else Normal(Words(z))
  {
    hide Val, Pow;
    ValOne(Words(y));
    z := NatMulAddWW(x, y.data[y.off], 0);
    if x.len == 0 { ValEmpty(Words(x)); }
  }

  // z[0 .. 2k] := x0 * y0, the rest of the m + n words cleared
  method LowProduct(w: Nat, x: Nat, y: Nat, k: nat, how: Ripple)
    requires InBounds(w) && InBounds(x) && InBounds(y) && w.data != x.data && w.data != y.data
    requires k <= x.len && k <= y.len && 6 * k <= w.len && x.len + y.len <= w.len
    modifies w.data
    ensures Val(First(w, x.len + y.len)) == Product(how, Val(Words(x)[..k]), Val(Words(y)[..k]), k)
  {
    hide Val, Pow, Product;
    var x0, y0 := Part(x, 0, k), Part(y, 0, k);
    assert Words(x0) == Words(x)[..k] && Words(y0) == Words(y)[..k];
    Karatsuba(w, x0, y0, how);
    ghost var low := Block(w, 0, 2 * k);
    NatClear(Part(w, 2 * k, x.len + y.len));
    ghost var s := First(w, x.len + y.len);
    assert s[..2 * k] == low;
    ZeroTail(s, 2 * k);
  }

  // addAt(z, natMul(a, b), i)
  method AddProductAt(z: Nat, a: Nat, b: Nat, i: nat, how: Ripple)
    requires InBounds(z) && InBounds(a) && InBounds(b) && z.data != a.data && z.data != b.data
    requires i < z.len && i + a.len + b.len <= z.len
    modifies z.data
    ensures OnlyWithin(z.data, z.off, z.off + z.len)
    ensures Val(Words(z)) == AddedAt(how, old(Val(Words(z))), MulWords(how, Words(a), Words(b)), i, z.len)
    decreases a.len + b.len, 7
  {
    hide Val, Pow, MulWords, AddedAt, MulRight, IsProduct, RawZero;
    var t := NatMul(a, b, how);
    ProductLen(t, MulWords(how, Words(a), Words(b)), a.len + b.len);
    AddAt(z, t, i, how);
  }

  lemma ProductLen(z: Nat, v: int, len: nat)
    requires InBounds(z) && IsProduct(z, v, len)
    ensures Val(Words(z)) == v && (Normal(Words(z)) || Val(Words(z)) == 0) && z.len <= Max(1, len)
  {
    if Words(z) == [0] { ValOne(Words(z)); }
  }

  // natNorm(natPart(p, from, to))
  method NormedPart(p: Nat, from: nat, to: nat) returns (r: Nat)
    requires InBounds(p) && from <= to <= p.len
    ensures r.data == p.data && InBounds(r) && r.len <= to - from
    ensures Words(r) == Normed(Words(p)[from..to]) && Val(Words(r)) == Val(Words(p)[from..to])
  {
    hide Val;
    assert Words(Part(p, from, to)) == Words(p)[from..to];
    r := NatNorm(Part(p, from, to));
  }

  lemma PartWords(p: Nat, from: nat)
    requires InBounds(p) && from <= p.len
    ensures Words(Part(p, from, p.len)) == Words(p)[from..]
  {}

  // Lines 179-198: x0 * y1 at k, then every further block of x times both parts of y
  method CrossBlocks(z: Nat, x: Nat, y: Nat, k: nat, how: Ripple)
    requires InBounds(z) && InBounds(x) && InBounds(y) && z.data != x.data && z.data != y.data
    requires z.len == x.len + y.len && 0 < k <= y.len <= x.len && (k < y.len || y.len < x.len)
    modifies z.data
    ensures Val(Words(z)) == CrossWords(how, old(Val(Words(z))), Words(x), Words(y), k)
    decreases x.len + y.len, 2
  {
    hide Val, Pow, MulWords, AddedAt, BlockValues, CrossWords;
    ghost var xs, ys := Words(x), Words(y);
    var x0 := NormedPart(x, 0, k);
    var y1 := Part(y, k, y.len);
    PartWords(y, k);
    ghost var z0 := Val(Words(z));
    assert xs[0..k] == xs[..k] && Words(x0) == Normed(xs[..k]);
    AddProductAt(z, x0, y1, k, how);
    assert Val(Words(z)) == AddedAt(how, z0, MulWords(how, Normed(xs[..k]), ys[k..]), k, |xs| + |ys|);
    var y0 := NormedPart(y, 0, k);
    CrossIs(how, z0, xs, ys, k, Val(Words(z)));
    BlockLoop(z, x, y0, y1, k, ys, how);
  }

  lemma CrossIs(how: Ripple, low: int, xs: seq<Word>, ys: seq<Word>, k: nat, z: int)
    requires 0 < k <= |ys| <= |xs|
    requires z == AddedAt(how, low, MulWords(how, Normed(xs[..k]), ys[k..]), k, |xs| + |ys|)
    ensures CrossWords(how, low, xs, ys, k) == BlockValues(how, z, xs, ys, k, k)
  {
    hide MulWords, AddedAt, BlockValues;
  }

  method BlockLoop(z: Nat, x: Nat, y0: Nat, y1: Nat, k: nat, ghost ys: seq<Word>, how: Ripple)
    requires InBounds(z) && InBounds(x) && InBounds(y0) && InBounds(y1)
    requires z.data != x.data && z.data != y0.data && z.data != y1.data
    requires 0 < k <= |ys| <= x.len && z.len == x.len + |ys| && (k < |ys| || |ys| < x.len)
    requires Words(y0) == Normed(ys[..k]) && Words(y1) == ys[k..]
    modifies z.data
    ensures Val(Words(z)) == BlockValues(how, old(Val(Words(z))), Words(x), ys, k, k)
    decreases x.len + |ys|, 1
  {
    hide Val, Pow, BlockValues;
    ghost var xs, start := Words(x), Val(Words(z));
    var i := k;
    while i < x.len
      invariant k <= i
      invariant xs == Words(x) && Words(y0) == Normed(ys[..k]) && Words(y1) == ys[k..]
      invariant BlockValues(how, start, xs, ys, k, k) == BlockValues(how, Val(Words(z)), xs, ys, k, i)
      decreases x.len - i
    {
      AddBlockProducts(z, x, y0, y1, i, k, xs, ys, how);
      i := i + k;
    }
    NoBlocks(how, Val(Words(z)), xs, ys, k, i);
  }

  lemma NoBlocks(how: Ripple, z: int, xs: seq<Word>, ys: seq<Word>, k: nat, i: nat)
    requires 0 < k <= |ys| <= |xs| && k <= i && |xs| <= i
    ensures BlockValues(how, z, xs, ys, k, i) == z
  {}

  // One round of the loop: block i of x
  method AddBlockProducts(z: Nat, x: Nat, y0: Nat, y1: Nat, i: nat, k: nat, ghost xs: seq<Word>,
                          ghost ys: seq<Word>, how: Ripple)
    requires InBounds(z) && InBounds(x) && InBounds(y0) && InBounds(y1)
    requires z.data != x.data && z.data != y0.data && z.data != y1.data
    requires xs == Words(x) && 0 < k <= |ys| <= x.len && k <= i < x.len && z.len == |xs| + |ys|
    requires k < |ys| || |ys| < x.len
    requires Words(y0) == Normed(ys[..k]) && Words(y1) == ys[k..]
    modifies z.data
    ensures BlockValues(how, old(Val(Words(z))), xs, ys, k, i) == BlockValues(how, Val(Words(z)), xs, ys, k, i + k)
    decreases |xs| + |ys|, 0
  {
    hide Val, Pow, BlockValues, AddedAt, MulWords, Normed;
    var j := x.len;
    if x.len - i > k {
      j := i + k;
    }
    NextBlocks(how, Val(Words(z)), xs, ys, k, i);
    var xi := NormedPart(x, i, j);
    AddProductAt(z, xi, y0, i, how);
    AddProductAt(z, xi, y1, i + k, how);
  }
}
