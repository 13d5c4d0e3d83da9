/** cmake/bigint/src/natdiv.c, third part: recursive division by blocks of half the divisor's
    length. Carries into the next words go through the repaired addVW and subVW, and a zero
    product is normalised before it is compared. */
module DivRecursive {
  import opened Bits
  import opened Base
  import opened Nats
  import opened NatAddSub
  import opened MulBasic
  import opened DivBasic
  import opened Ripples
  import opened MulValue
  import opened Multiplication

  const DIV_RECURSIVE_THRESHOLD := 100

  // ---- the wide digit estimate -------------------------------------------------------------

  // x = h p + xl and v = vh p + vl; q is the quotient of the leading parts.
  ghost predicate WideParts(x: int, v: int, h: int, vh: int, vl: int, p: int, q: int) {
    && p > 0 && 0 <= vl < p && 0 < vh && v == vh * p + vl
    && h * p <= x < h * p + p && 0 <= h
    && 0 <= q && q * vh <= h < q * vh + vh && q <= 2 * vh + 2
  }

  // The estimate is never low and at most 2 too large.
  lemma WideEstimate(x: int, v: int, h: int, vh: int, vl: int, p: int, q: int)
    requires WideParts(x, v, h, vh, vl, p, q)
    ensures x < (q + 1) * v
    ensures (q - 2) * v <= x
  {
    WideNotLow(x, v, h, vh, vl, p, q);
    WideNotHigh(v, vh, vl, p, q);
    MulMono(q * vh, h, p);
    hide *;
    TwoLess(x, v, h, vh, vl, p, q);
  }

  lemma TwoLess(x: int, v: int, h: int, vh: int, vl: int, p: int, q: int)
    requires v == vh * p + vl && h * p <= x && (q * vh) * p <= h * p && q * vl - 2 * v <= 0
    ensures (q - 2) * v <= x
  {
    MulAssoc(q, vh, p);
    assert q * v == q * (vh * p) + q * vl;
    assert (q - 2) * v == q * v - 2 * v;
  }

  lemma WideNotLow(x: int, v: int, h: int, vh: int, vl: int, p: int, q: int)
    requires p > 0 && 0 <= vl && v == vh * p + vl && x < h * p + p && h < q * vh + vh && q >= 0
    ensures x < (q + 1) * v
  {
    MulMono(h + 1, q * vh + vh, p);
    assert (h + 1) * p == h * p + p;
    assert (q * vh + vh) * p == (q + 1) * (vh * p);
    MulMono(0, q + 1, vl);
    assert (q + 1) * v == (q + 1) * (vh * p) + (q + 1) * vl;
  }

  lemma WideNotHigh(v: int, vh: int, vl: int, p: int, q: int)
    requires p > 0 && 0 <= vl < p && 0 < vh && v == vh * p + vl && 0 <= q <= 2 * vh + 2
    ensures q * vl - 2 * v <= 0
  {
    MulMono(q, 2 * vh + 2, vl);
    assert (2 * vh + 2) * vl == 2 * (vl * vh) + 2 * vl;
    MulMono(vl, p, vh);
    assert p * vh == vh * p;
  }

  // What the correction loop keeps: xu and qv are what is left of x and the pending product;
  // the divisor is vp + vl, vp its high part in place.
  ghost predicate Correcting(x: int, q: int, xu: int, qv: int, vp: int, vl: int) {
    xu == x - q * vp && qv == q * vl && q >= 0 && x < (q + 1) * (vp + vl)
  }

  // A pending product above what is left means the digit is too large.
  lemma CorrectionDue(x: int, q: int, xu: int, qv: int, vp: int, vl: int)
    requires Correcting(x, q, xu, qv, vp, vl) && qv > xu && x >= 0 && vl >= 0 && vp > 0
    ensures q >= 1 && qv >= vl && xu + vp <= x
    ensures Correcting(x, q - 1, xu + vp, qv - vl, vp, vl)
  {
    assert q * (vp + vl) == q * vp + q * vl;
    Positive(q, vp + vl, x);
    assert (q - 1) * vp == q * vp - vp && (q - 1) * vl == q * vl - vl;
    MulMono(0, q - 1, vl);
    MulMono(0, q - 1, vp);
  }

  // No correction due means the digit is right.
  lemma CorrectionDone(x: int, q: int, xu: int, qv: int, vp: int, vl: int)
    requires Correcting(x, q, xu, qv, vp, vl) && qv <= xu
    ensures x == q * (vp + vl) + (xu - qv) && 0 <= xu - qv < vp + vl
  {
    assert q * (vp + vl) == q * vp + q * vl;
    assert (q + 1) * (vp + vl) == q * (vp + vl) + (vp + vl);
  }

  // After the second correction nothing can be due: the assert of lines 184 and 211.
  lemma NoThirdCorrection(x: int, q: int, xu: int, qv: int, vp: int, vl: int)
    requires Correcting(x, q, xu, qv, vp, vl) && q * (vp + vl) <= x
    ensures qv <= xu
  {
    assert q * (vp + vl) == q * vp + q * vl;
  }

  // ---- one correction ----------------------------------------------------------------------

  // The stored words of the product: at least s of them
  function Stored(qhatv: Nat, s: nat): Nat {
    qhatv.(len := Max(s, qhatv.len))
  }

  // addAt with the repaired addVW, for a sum that stays inside z
  method AddInside(z: Nat, x: Nat, i: nat)
    requires InBounds(z) && InBounds(x) && z.data != x.data && i <= z.len
    requires Val(Words(z)) + Pow(i) * Val(Words(x)) < Pow(z.len)
    modifies z.data
    ensures OnlyWithin(z.data, z.off + i, z.off + z.len)
    ensures Val(Words(z)) == old(Val(Words(z))) + Pow(i) * Val(Words(x))
  {
    hide Val, Pow, SumExact, AddedAt, Normal;
    AddAt(z, x, i, Repaired);
  }

  // Lines 177-182 and 203-208: qhat loses 1, the product v[..s], and u gets v[s..] back.
  method CorrectOnce(uu: Nat, qhat: Nat, qhatv: Nat, v: Nat, s: nat)
    requires InBounds(uu) && InBounds(qhat) && InBounds(v) && InBounds(Stored(qhatv, s)) && s <= v.len && s <= uu.len
    requires uu.data != qhat.data && uu.data != qhatv.data && uu.data != v.data
    requires qhat.data != qhatv.data && qhat.data != v.data && qhatv.data != v.data
    requires Val(Words(qhat)) >= 1 && Val(Words(v)[..s]) <= Val(Words(Stored(qhatv, s)))
    requires Val(Words(uu)) + Pow(s) * Val(Words(v)[s..]) < Pow(uu.len)
    modifies uu.data, qhat.data, qhatv.data
    ensures OnlyWithin(uu.data, uu.off + s, uu.off + uu.len) && OnlyWithin(qhat.data, qhat.off, qhat.off + qhat.len)
    ensures Val(Words(qhat)) == old(Val(Words(qhat))) - 1
    ensures Val(Words(Stored(qhatv, s))) == old(Val(Words(Stored(qhatv, s)))) - Val(Words(v)[..s])
    ensures Val(Words(uu)) == old(Val(Words(uu))) + Pow(s) * Val(Words(v)[s..])
  {
    hide Val, Pow, SubsWord, Subtracted, DifferenceError, DifferenceExact;
    ghost var q0 := Words(qhat);
    var c := SubVWRepaired(qhat, qhat, 1);
    OneOff(Words(qhat), c, q0);
    var st := Stored(qhatv, s);
    assert First(v, s) == Words(v)[..s] && First(st, st.len) == Words(st);
    ghost var _ := SubThenRipple(st, v, s, st.len, Repaired);
    PartWords(v, s);
    AddInside(uu, Part(v, s, v.len), s);
  }

  lemma OneOff(z: seq<Word>, c: Word, x: seq<Word>)
    requires SubsWord(z, c, x, 1) && Val(x) >= 1
    ensures Val(z) == Val(x) - 1
  {
    hide Val, Pow;
    ValBound(z);
    ValBound(x);
    CancelLt(c, 1, Pow(|z|));
  }

  // ---- the correction loop -----------------------------------------------------------------

  ghost predicate Separate(uu: Nat, qhat: Nat, qhatv: Nat, v: Nat, s: nat) {
    && InBounds(uu) && InBounds(qhat) && InBounds(v) && InBounds(qhatv)
    && 0 < s < v.len <= uu.len && qhatv.len <= v.len
    && uu.data != qhat.data && uu.data != qhatv.data && uu.data != v.data
    && qhat.data != qhatv.data && qhat.data != v.data && qhatv.data != v.data
  }

  // The high part of the divisor, in place
  ghost function HighPart(vs: seq<Word>, s: nat): int
    requires s <= |vs|
  {
    Pow(s) * Val(vs[s..])
  }

  // The words of the product continue with zeros up to word s.
  ghost predicate StoredIs(qhatv: Nat, s: nat)
    requires InBounds(qhatv)
    reads qhatv.data
  {
    InBounds(Stored(qhatv, s)) && Val(Words(Stored(qhatv, s))) == Val(Words(qhatv))
  }

  // The digit is at most slack too large; the product compares by value with the normalised rest.
  ghost predicate CorrState(uu: Nat, qhat: Nat, qhatv: Nat, v: Nat, s: nat, x: int, slack: int)
    requires Separate(uu, qhat, qhatv, v, s)
    reads uu.data, qhat.data, qhatv.data, v.data
  {
    var vp, vl := HighPart(Words(v), s), Val(Words(v)[..s]);
    && Correcting(x, Val(Words(qhat)), Val(Words(uu)), Val(Words(qhatv)), vp, vl)
    && (Val(Words(qhat)) - slack) * (vp + vl) <= x
    && 0 <= x < Pow(uu.len) && Divisor(Words(v))
    && (Val(Words(qhatv)) > 0 ==> StoredIs(qhatv, s))
    && (Normal(Words(qhatv)) || Val(Words(uu)) >= Pow(v.len - 1))
  }

  lemma HighPartSize(vs: seq<Word>, s: nat)
    requires Divisor(vs) && s < |vs|
    ensures HighPart(vs, s) >= Pow(|vs| - 1) > 0
    ensures HighPart(vs, s) + Val(vs[..s]) == Val(vs) && Val(vs[..s]) >= 0
  {
    hide Val, Pow;
    ValSplit(vs, s);
    ValBound(vs[..s]);
    var t := vs[s..];
    NormalLow(t);
    PowAdd(s, |t| - 1);
    MulMono(Pow(|t| - 1), Val(t), Pow(s));
    assert Pow(s) * Val(t) == Val(t) * Pow(s) && Pow(|t| - 1) * Pow(s) == Pow(s) * Pow(|t| - 1);
  }

  // A value that fits the first len words is the value of those words.
  lemma ShortValue(st: seq<Word>, len: nat)
    requires len <= |st| && Val(st) < Pow(len)
    ensures Val(st[..len]) == Val(st)
  {
    SmallHasZeros(st, len);
    ZeroTail(st, len);
  }

  method CorrectRound(uu: Nat, qhat: Nat, qhatv: Nat, v: Nat, s: nat, ghost x: int, ghost slack: int)
    requires Separate(uu, qhat, qhatv, v, s) && CorrState(uu, qhat, qhatv, v, s, x, slack)
    requires Val(Words(qhatv)) > Val(Words(uu))
    modifies uu.data, qhat.data, qhatv.data
    ensures OnlyWithin(uu.data, uu.off, uu.off + uu.len) && OnlyWithin(qhat.data, qhat.off, qhat.off + qhat.len)
    ensures CorrState(uu, qhat, qhatv, v, s, x, slack - 1)
  {
    hide Val, Pow, Correcting, Divisor, HighPart;
    ValBound(Words(uu));
    ghost var vs := Words(v);
    ghost var vp, vl, q, xu, qv := HighPart(vs, s), Val(vs[..s]), Val(Words(qhat)), Val(Words(uu)), Val(Words(qhatv));
    HighPartSize(vs, s);
    CorrectionDue(x, q, xu, qv, vp, vl);
    HighPartIs(vs, s);
    ValBound(Words(qhatv));
    CorrectOnce(uu, qhat, qhatv, v, s);
    ghost var st := Words(Stored(qhatv, s));
    ShortValue(st, qhatv.len);
    assert st[..qhatv.len] == Words(qhatv);
    SlackLess(q, slack, vp + vl, x);
  }

  lemma HighPartIs(vs: seq<Word>, s: nat)
    requires s <= |vs|
    ensures HighPart(vs, s) == Pow(s) * Val(vs[s..])
  {}

  lemma SlackLess(q: int, slack: int, v: int, x: int)
    requires (q - slack) * v <= x
    ensures ((q - 1) - (slack - 1)) * v <= x
  {}

  // Lines 173-184 and 201-211
  method Correct(uu: Nat, qhat: Nat, qhatv: Nat, v: Nat, s: nat, ghost x: int) returns (ghost slack: int)
    requires Separate(uu, qhat, qhatv, v, s) && CorrState(uu, qhat, qhatv, v, s, x, 2)
    modifies uu.data, qhat.data, qhatv.data
    ensures OnlyWithin(uu.data, uu.off, uu.off + uu.len) && OnlyWithin(qhat.data, qhat.off, qhat.off + qhat.len)
    ensures CorrState(uu, qhat, qhatv, v, s, x, slack)
    ensures Val(Words(qhatv)) <= Val(Words(uu))
  {
    hide Val, Pow, CorrState;
    var i := 0;
    while i < 2
      invariant 0 <= i <= 2
      invariant OnlyWithin(uu.data, uu.off, uu.off + uu.len) && OnlyWithin(qhat.data, qhat.off, qhat.off + qhat.len)
      invariant CorrState(uu, qhat, qhatv, v, s, x, 2 - i)
    {
      var e := CompareRest(uu, qhat, qhatv, v, s, x, 2 - i);
      if e <= 0 {
        slack := 2 - i;
        return;
      }
      CorrectRound(uu, qhat, qhatv, v, s, x, 2 - i);
      i := i + 1;
    }
    slack := 0;
    NoSlack(uu, qhat, qhatv, v, s, x);
    var e := CompareRest(uu, qhat, qhatv, v, s, x, 0);
    assert e <= 0;
  }

  // natCmp(qhatv, natNorm(uu)) compares the values.
  method CompareRest(uu: Nat, qhat: Nat, qhatv: Nat, v: Nat, s: nat, ghost x: int, ghost slack: int) returns (e: int)
    requires Separate(uu, qhat, qhatv, v, s) && CorrState(uu, qhat, qhatv, v, s, x, slack)
    ensures e == Order(Val(Words(qhatv)), Val(Words(uu)))
  {
    hide Val, Pow, Correcting, HighPart;
    var un := NatNorm(uu);
    if !Normal(Words(qhatv)) { LongEnough(Words(un), v.len); }
    CmpIsValueOrder(Words(qhatv), Words(un));
    e := NatCmp(qhatv, un);
  }

  lemma LongEnough(s: seq<Word>, n: nat)
    requires n > 0 && Val(s) >= Pow(n - 1)
    ensures |s| >= n
  {
    ValBound(s);
    if |s| < n { PowMono(|s|, n - 1); }
  }

  lemma NoSlack(uu: Nat, qhat: Nat, qhatv: Nat, v: Nat, s: nat, x: int)
    requires Separate(uu, qhat, qhatv, v, s) && CorrState(uu, qhat, qhatv, v, s, x, 0)
    ensures Val(Words(qhatv)) <= Val(Words(uu))
  {
    hide Val, Pow, Correcting, HighPart, Divisor;
    var vp, vl := HighPart(Words(v), s), Val(Words(v)[..s]);
    NoThirdCorrection(x, Val(Words(qhat)), Val(Words(uu)), Val(Words(qhatv)), vp, vl);
  }

  // ---- one wide digit ------------------------------------------------------------------------

  // The product of the estimate with v[..s], normalised even when it is zero; raw is what natMul
  // returns for it.
  method PendingProduct(qhat: Nat, v: Nat, s: nat) returns (qhatv: Nat, ghost raw: seq<Word>)
    requires InBounds(qhat) && InBounds(v) && 1 < s <= v.len && Normal(Words(qhat))
    ensures fresh(qhatv.data) && InBounds(qhatv) && Normal(Words(qhatv))
    ensures Val(Words(qhatv)) == Val(raw) == Val(Words(qhat)) * Val(Words(v)[..s])
    ensures Val(Words(qhatv)) > 0 ==> StoredIs(qhatv, s)
    ensures if Words(qhat) == [] then raw == [0] else Normal(raw)
  {
    hide Val, Pow, StoredIs, RawZero, IsProduct, MulWords, MulRight;
    assert Words(Part(v, 0, s)) == Words(v)[..s];
    RawByEstimate(Words(qhat), Words(v)[..s]);
    var t := NatMul(qhat, Part(v, 0, s), Repaired);
    raw := Words(t);
    ProductValue(t, MulWords(Repaired, Words(qhat), Words(v)[..s]), qhat.len + s);
    qhatv := NatNorm(t);
    if Val(Words(t)) > 0 { StoredProduct(t, qhatv, Val(Words(t)), qhat.len + s, s); }
  }

  // Of the two operands, only the estimate can be what makes natMul return natNew(0).
  lemma RawByEstimate(qs: seq<Word>, low: seq<Word>)
    requires Normal(qs) && |low| > 1
    ensures RawZero(qs, low) <==> qs == []
  {}

  lemma StoredProduct(t: Nat, r: Nat, x: int, len: nat, s: nat)
    requires InBounds(t) && IsProduct(t, x, len) && Val(Words(t)) > 0 && s <= len
    requires InBounds(r) && r == t.(len := NormLen(Words(t))) && Val(Words(r)) == Val(Words(t))
    ensures StoredIs(r, s)
  {
    hide Val, Pow, NormLen;
    ValOne([0]);
    var all := Block(t, 0, len);
    var k := Max(s, r.len);
    assert Words(Stored(r, s)) == all[..k] && Words(r) == all[..r.len];
    PrefixesAgree(all, r.len, k);
  }

  lemma PrefixesAgree(s: seq<Word>, n: nat, k: nat)
    requires n <= k <= |s| && Val(s[..n]) == Val(s)
    ensures Val(s[..k]) == Val(s)
  {
    hide *;
    PrefixBelow(s, k);
    PrefixBelow(s[..k], n);
    assert s[..k][..n] == s[..n];
  }

  lemma PrefixBelow(s: seq<Word>, k: nat)
    requires k <= |s|
    ensures Val(s[..k]) <= Val(s)
  {
    hide Val, Pow;
    ValSplit(s, k);
    ValBound(s[k..]);
    MulMono(0, Val(s[k..]), Pow(k));
    assert Pow(k) * Val(s[k..]) == Val(s[k..]) * Pow(k);
  }

  // (2 v + 2) v, the bound that keeps an estimate by v within 2 v + 2
  function TwiceSquare(v: int): int { (2 * v + 2) * v }

  // The high part of a divisor is large enough for the leading words of a block, which fill at most
  // n + 1 words: their quotient has s + 2 words and exceeds vh at most twofold.
  lemma HighPartLarge(vs: seq<Word>, s: nat)
    requires Divisor(vs) && 2 * s + 2 <= |vs| <= 2 * s + 3
    ensures Divisor(vs[s..]) && Pow(|vs| + 1) <= Val(vs[s..]) * Pow(s + 2)
    ensures Pow(|vs| + 1) <= TwiceSquare(Val(vs[s..]))
  {
    hide Val, Pow;
    var n := |vs|;
    var t := vs[s..];
    DivisorSize(t);
    PowAdd(n - s - 1, s + 2);
    PowMono(n + 1, 2 * (n - s - 1) + 1);
    PowAdd(n - s - 1, n - s - 1);
    NextPow(2 * (n - s - 1));
    WideArithmetic(Val(t), Pow(n - s - 1), Pow(s + 2), Pow(n + 1));
  }

  lemma WideArithmetic(vh: int, p: int, q: int, b: int)
    requires p > 0 && TOP * p <= vh && q > 0 && b == p * q && b <= W * (p * p)
    ensures b <= vh * q && b <= TwiceSquare(vh)
  {
    MulMono(p, vh, q);
    MulMono(TOP * p, vh, TOP * p);
    MulMono(TOP * p, vh, vh);
    assert (TOP * p) * vh == vh * (TOP * p);
    assert (TOP * p) * (TOP * p) == (TOP * TOP) * (p * p);
    MulMono(0, p, p);
    assert (2 * vh + 2) * vh == 2 * (vh * vh) + 2 * vh;
  }

  lemma PendingShort(vs: seq<Word>, s: nat, h: int, q: int)
    requires Divisor(vs) && 2 * s + 2 <= |vs| && 0 <= q && q * Val(vs[s..]) <= h < Pow(|vs| + 1)
    ensures 0 <= q * Val(vs[..s]) < Pow(|vs|)
  {
    hide Val, Pow;
    var n := |vs|;
    var t := vs[s..];
    DivisorSize(t);
    ValBound(vs[..s]);
    PowAdd(n - s - 1, s + 2);
    NextPow(s + 1);
    PowAdd(s + 1, s);
    NextPow(2 * s + 1);
    PowMono(2 * s + 2, n);
    ShortArithmetic(q, Val(t), Val(vs[..s]), Pow(n - s - 1), Pow(s + 1), Pow(s));
  }

  lemma ShortArithmetic(q: int, vh: int, vl: int, p: int, r: int, t: int)
    requires q >= 0 && p > 0 && TOP * p <= vh && q * vh < p * (W * r) && 0 <= vl < t && r > 0
    ensures 0 <= q * vl < W * (r * t)
  {
    MulMono(TOP * p, vh, q);
    assert (TOP * p) * q == (TOP * q) * p && vh * q == q * vh && p * (W * r) == (W * r) * p;
    CancelLt(TOP * q, W * r, p);
    assert q < 2 * r;
    MulMono(0, q, vl);
    MulMono(q, 2 * r, vl);
    MulMono(vl, t, 2 * r);
    assert vl * (2 * r) == (2 * r) * vl && t * (2 * r) == 2 * (r * t);
    MulMono(1, r, t);
  }

  lemma NormalShort(s: seq<Word>, n: nat)
    requires Normal(s) && Val(s) < Pow(n)
    ensures |s| <= n
  {
    if |s| > n { NormalLow(s); PowMono(n, |s| - 1); }
  }

  // Before the corrections: u[s..] holds the remainder of the leading parts, qhat their quotient.
  lemma EstimateState(x: int, v: int, h: int, r: int, xl: int, vh: int, vl: int, p: int, q: int)
    requires p > 0 && 0 <= vl < p && 0 < vh && v == vh * p + vl && 0 <= xl < p && q >= 0
    requires x == xl + p * h && h == q * vh + r && 0 <= r < vh && h < TwiceSquare(vh)
    ensures Correcting(x, q, xl + p * r, q * vl, p * vh, vl)
    ensures (q - 2) * (p * vh + vl) <= x
  {
    EstimateParts(x, v, h, r, xl, vh, vl, p, q);
    hide WideParts;
    WideEstimate(x, v, h, vh, vl, p, q);
    assert vh * p == p * vh;
    RestOf(h, r, vh, p, q);
  }

  lemma EstimateParts(x: int, v: int, h: int, r: int, xl: int, vh: int, vl: int, p: int, q: int)
    requires p > 0 && 0 <= vl < p && 0 < vh && v == vh * p + vl && 0 <= xl < p && q >= 0
    requires x == xl + p * h && h == q * vh + r && 0 <= r < vh && h < TwiceSquare(vh)
    ensures WideParts(x, v, h, vh, vl, p, q)
  {
    assert h * p == p * h;
    MulMono(0, q, vh);
    CancelLt(q, 2 * vh + 2, vh);
  }

  lemma RestOf(h: int, r: int, vh: int, p: int, q: int)
    requires h == q * vh + r
    ensures p * h - q * (p * vh) == p * r
  {
    assert p * (q * vh + r) == p * (q * vh) + p * r;
    assert p * (q * vh) == q * (p * vh);
  }

  // ---- natDivRecursiveStep -------------------------------------------------------------------

  // The recursion halves the divisor, so its depth stays below twice the bit length of the first one.
  ghost predicate DepthBound(n: nat, depth: nat, n0: nat) {
    (n - 3) * Pow2(depth) <= n0 - 3
  }

  lemma Deeper(n: nat, depth: nat, n0: nat, s: nat)
    requires n >= DIV_RECURSIVE_THRESHOLD && s == n / 2 - 1 && DepthBound(n, depth, n0)
    ensures DepthBound(n - s, depth + 1, n0)
    ensures depth + 1 < 2 * BitLen(n0)
  {
    var p := Pow2(depth);
    MulMono(2 * (n - s - 3), n - 3, p);
    assert (n - s - 3) * (2 * p) == 2 * (n - s - 3) * p;
    MulMono(97, n - 3, p);
    BitLenBounds(n0);
    if BitLen(n0) <= depth { Pow2Mono(BitLen(n0), depth); }
  }

  // u is divided by v: the quotient is added to the cleared z, u keeps the remainder.
  method DivRecursiveStep(z: Nat, u: Nat, v: Nat, depth: nat, tempsNum: nat, ghost n0: nat) returns (ghost wrong: bool)
    requires InBounds(z) && InBounds(u) && InBounds(v)
    requires z.data != u.data && z.data != v.data && u.data != v.data
    requires Divisor(Words(v)) && Val(Words(z)) == 0 && Val(Words(u)) < Val(Words(v)) * Pow(z.len)
    requires DepthBound(v.len, depth, n0) && tempsNum == 2 * BitLen(n0)
    modifies z.data, u.data
    ensures OnlyWithin(z.data, z.off, z.off + z.len) && OnlyWithin(u.data, u.off, u.off + u.len)
    ensures Val(old(Words(u))) == Val(Words(z)) * Val(Words(v)) + Val(Words(u))
    ensures 0 <= Val(Words(u)) < Val(Words(v))
    ensures wrong <==> GoesWrong(Val(old(Words(u))), Words(v))
    decreases v.len, 7
  {
    hide Val, Pow, Divisor, DepthBound, BitLen, GoesWrong;
    var un := NatNorm(u);
    ghost var us := Words(u);
    NormLenMeans(us);
    DivisorSize(Words(v));
    if un.len == 0 {
      NatClear(z);
      ValEmpty(Words(un));
      wrong := false;
      NothingGoesWrong(Val(us), Words(v));
      return;
    }
    wrong := StepNormed(z, un, v, depth, tempsNum, n0);
    assert Words(u)[..un.len] == Words(un);
    forall k | un.len <= k < u.len ensures Words(u)[k] == 0 {
      assert us[k] == 0 && Words(u)[k] == us[k];
    }
    ZeroTail(Words(u), un.len);
  }

  method StepNormed(z: Nat, u: Nat, v: Nat, depth: nat, tempsNum: nat, ghost n0: nat) returns (ghost wrong: bool)
    requires InBounds(z) && InBounds(u) && InBounds(v)
    requires z.data != u.data && z.data != v.data && u.data != v.data
    requires Divisor(Words(v)) && Val(Words(z)) == 0 && Val(Words(u)) < Val(Words(v)) * Pow(z.len)
    requires u.len > 0 && Normal(Words(u))
    requires DepthBound(v.len, depth, n0) && tempsNum == 2 * BitLen(n0)
    modifies z.data, u.data
    ensures OnlyWithin(z.data, z.off, z.off + z.len) && OnlyWithin(u.data, u.off, u.off + u.len)
    ensures Val(old(Words(u))) == Val(Words(z)) * Val(Words(v)) + Val(Words(u))
    ensures 0 <= Val(Words(u)) < Val(Words(v))
    ensures wrong <==> GoesWrong(Val(old(Words(u))), Words(v))
    decreases v.len, 6
  {
    hide Val, Pow, Divisor, DepthBound, BitLen, GoesWrong, BlocksGoWrong;
    var n := v.len;
    wrong := false;
    BlocksDecide(Words(u), Words(v));
    if n < DIV_RECURSIVE_THRESHOLD {
      LeafDivide(z, u, v);
      return;
    }
    if u.len < n {
      ShorterIsBelow(Words(u), Words(v));
      ZeroTimes(Val(Words(z)), Val(Words(v)));
      return;
    }
    wrong := BlockDivide(z, u, v, depth, tempsNum, n0);
  }

  lemma ZeroTimes(z: int, v: int)
    requires z == 0
    ensures z * v == 0
  {}

  lemma ShorterIsBelow(us: seq<Word>, vs: seq<Word>)
    requires Divisor(vs) && |us| < |vs|
    ensures 0 <= Val(us) < Val(vs)
  {
    DivisorSize(vs);
    ValBound(us);
    PowMono(|us|, |vs| - 1);
  }

  // The schoolbook division has room for its quotient.
  method LeafDivide(z: Nat, u: Nat, v: Nat)
    requires InBounds(z) && InBounds(u) && InBounds(v)
    requires z.data != u.data && z.data != v.data && u.data != v.data
    requires Divisor(Words(v)) && Val(Words(z)) == 0 && Val(Words(u)) < Val(Words(v)) * Pow(z.len)
    requires u.len > 0 && Normal(Words(u))
    modifies z.data, u.data
    ensures OnlyWithin(z.data, z.off, z.off + z.len) && OnlyWithin(u.data, u.off, u.off + u.len)
    ensures Val(old(Words(u))) == Val(Words(z)) * Val(Words(v)) + Val(Words(u))
    ensures 0 <= Val(Words(u)) < Val(Words(v))
  {
    hide Val, Pow, Divisor;
    ghost var us, vs, z0 := Words(u), Words(v), Words(z);
    RoomForQuotient(us, vs, z.len);
    if u.len == z.len + v.len {
      assert us[z.len..] == Tail(u, z.len);
    }
    ghost var len := QuotientLen(z, u, v);
    AllZero(z0);
    NatDivBasic(z, u, v);
    assert Words(z)[..len] == First(z, len);
    forall k | len <= k < z.len ensures Words(z)[k] == 0 {
      assert Words(z)[k] == z0[k];
    }
    ZeroTail(Words(z), len);
    DividedIs(Val(us), First(z, len), Val(vs), Val(Words(u)));
  }

  lemma DividedIs(x: int, qs: seq<Word>, v: int, r: int)
    requires Divided(x, qs, v, r)
    ensures x == Val(qs) * v + r
  {}

  lemma AllZero(s: seq<Word>)
    requires Val(s) == 0
    ensures forall k :: 0 <= k < |s| ==> s[k] == 0
  {
    PowZero();
    SmallHasZeros(s, 0);
  }

  lemma RoomForQuotient(us: seq<Word>, vs: seq<Word>, room: nat)
    requires Divisor(vs) && Normal(us) && |us| > 0 && Val(us) < Val(vs) * Pow(room)
    ensures |us| <= |vs| + room
    ensures |us| == |vs| + room ==> Val(us[room..]) < Val(vs)
  {
    hide *;
    DivisorSize(vs);
    QuotientRoom(us, vs, room);
    if |us| == |vs| + room { TailBelow(us, room, Val(vs)); }
  }

  lemma QuotientRoom(us: seq<Word>, vs: seq<Word>, room: nat)
    requires Normal(us) && |us| > 0 && Val(us) < Val(vs) * Pow(room)
    ensures |us| <= |vs| + room
  {
    hide *;
    NormalLow(us);
    ValBound(vs);
    PowAdd(|vs|, room);
    MulMono(Val(vs), Pow(|vs|), Pow(room));
    if |us| > |vs| + room { PowMono(|vs| + room, |us| - 1); }
  }

  // ---- dividing by blocks ---------------------------------------------------------------------

  // qhat, in qbuf, becomes the quotient of uu by v and uu its remainder. top is the number of
  // leading words of uu that can be nonzero.
  method WideDigit(uu: Nat, v: Nat, qbuf: Nat, top: nat, depth: nat, tempsNum: nat, ghost n0: nat)
    returns (qhat: Nat, ghost wrong: bool)
    requires InBounds(uu) && InBounds(v) && InBounds(qbuf)
    requires uu.data != v.data && qbuf.data != v.data && qbuf.data != uu.data
    requires Divisor(Words(v)) && v.len >= DIV_RECURSIVE_THRESHOLD && v.len / 2 + 1 <= qbuf.len
    requires v.len <= top <= uu.len && Val(Words(uu)) < Pow(top) && Val(Words(uu)) < Pow(v.len + v.len / 2)
    requires DepthBound(v.len, depth, n0) && tempsNum == 2 * BitLen(n0)
    modifies uu.data, qbuf.data
    ensures OnlyWithin(uu.data, uu.off, uu.off + uu.len)
    ensures qhat.data == qbuf.data && InBounds(qhat)
    ensures Val(old(Words(uu))) == Val(Words(qhat)) * Val(Words(v)) + Val(Words(uu))
    ensures 0 <= Val(Words(uu)) < Val(Words(v))
    ensures wrong <==> BlockGoesWrong(Val(old(Words(uu))), Words(v))
    decreases v.len, 2
  {
    hide Val, Pow, Divisor, DepthBound, BitLen, Correcting, HighPart, GoesWrong, BlockGoesWrong, Misjudged;
    var s := v.len / 2 - 1;
    ghost var x := Val(Words(uu));
    ValBound(Words(uu));
    ghost var inner: bool;
    qhat, inner := EstimateWide(uu, v, qbuf, s, top, depth, tempsNum, n0);
    ghost var raw: seq<Word>;
    var qhatv: Nat;
    qhatv, raw := PendingProduct(qhat, v, s);
    ghost var rest := Words(uu)[..NormLen(Words(uu))];
    FirstComparison(Words(uu), Words(qhat), raw, Words(v), s, x);
    wrong := Misjudged(raw, rest) || inner;
    BlockDecides(x, Words(v));
    StateReady(uu, qhat, qhatv, v, s, x);
    ghost var slack := Correct(uu, qhat, qhatv, v, s, x);
    SubtractPending(uu, qhat, qhatv, v, s, x, slack);
  }

  // Lines 167-170 and 196-199: the leading words of uu are divided by v[s..].
  method EstimateWide(uu: Nat, v: Nat, qbuf: Nat, s: nat, top: nat, depth: nat, tempsNum: nat, ghost n0: nat)
    returns (qhat: Nat, ghost wrong: bool)
    requires InBounds(uu) && InBounds(v) && InBounds(qbuf)
    requires uu.data != v.data && qbuf.data != v.data && qbuf.data != uu.data
    requires Divisor(Words(v)) && v.len >= DIV_RECURSIVE_THRESHOLD && s == v.len / 2 - 1 && s + 2 <= qbuf.len
    requires v.len <= top <= uu.len && Val(Words(uu)) < Pow(top) && Val(Words(uu)) < Pow(v.len + s + 1)
    requires DepthBound(v.len, depth, n0) && tempsNum == 2 * BitLen(n0)
    modifies uu.data, qbuf.data
    ensures OnlyWithin(uu.data, uu.off, uu.off + uu.len)
    ensures qhat.data == qbuf.data && InBounds(qhat) && Normal(Words(qhat))
    ensures Divisor(Words(v)[s..]) && (wrong <==> GoesWrong(Val(old(Words(uu))) / Pow(s), Words(v)[s..]))
    ensures var x, q, vp, vl := Val(old(Words(uu))), Val(Words(qhat)), HighPart(Words(v), s), Val(Words(v)[..s]);
      && Correcting(x, q, Val(Words(uu)), q * vl, vp, vl)
      && (q - 2) * (vp + vl) <= x && 0 <= q * vl < Pow(v.len)
    decreases v.len, 1
  {
    hide Val, Pow, Divisor, DepthBound, BitLen, Correcting, HighPart, GoesWrong;
    ghost var us, vs := Words(uu), Words(v);
    Deeper(v.len, depth, n0, s);
    assert depth + 1 < tempsNum;
    LeadingPart(us, s, top);
    ValBound(us);
    HighPartLarge(vs, s);
    PowAdd(v.len + 1, s);
    CancelLt(Val(us[s..top]), Pow(v.len + 1), Pow(s));
    DivModUnique(Val(us), Pow(s), Val(us[s..top]), Val(us[..s]));
    qhat, wrong := DivideLeading(uu, v, qbuf, s, top, depth, tempsNum, n0);
    SplitAgain(us, Words(uu), s, top);
    ValBound(Words(qhat));
    EstimateFollows(us, Words(uu), vs, s, top, Val(Words(qhat)));
  }

  method DivideLeading(uu: Nat, v: Nat, qbuf: Nat, s: nat, top: nat, depth: nat, tempsNum: nat, ghost n0: nat)
    returns (qhat: Nat, ghost wrong: bool)
    requires InBounds(uu) && InBounds(v) && InBounds(qbuf)
    requires uu.data != v.data && qbuf.data != v.data && qbuf.data != uu.data
    requires 0 < s < v.len && s <= top <= uu.len && s + 2 <= qbuf.len && Divisor(Words(v)[s..])
    requires 0 <= Val(Words(uu)[s..top]) < Val(Words(v)[s..]) * Pow(s + 2)
    requires DepthBound(v.len - s, depth + 1, n0) && tempsNum == 2 * BitLen(n0)
    modifies uu.data, qbuf.data
    ensures OnlyWithin(uu.data, uu.off + s, uu.off + top)
    ensures Words(uu)[..s] == old(Words(uu))[..s] && Words(uu)[top..] == old(Words(uu))[top..]
    ensures qhat.data == qbuf.data && InBounds(qhat) && Normal(Words(qhat))
    ensures wrong <==> GoesWrong(Val(old(Words(uu))[s..top]), Words(v)[s..])
    ensures Val(old(Words(uu))[s..top]) == Val(Words(qhat)) * Val(Words(v)[s..]) + Val(Words(uu)[s..top])
    ensures 0 <= Val(Words(uu)[s..top]) < Val(Words(v)[s..])
    decreases v.len, 0
  {
    hide Val, Pow, Divisor, DepthBound, BitLen, GoesWrong;
    ghost var us, vs := Words(uu), Words(v);
    PartWords(v, s);
    assert Words(Part(uu, s, top)) == us[s..top];
    DivisorPositive(vs[s..]);
    RoomInBuffer(Val(vs[s..]), s + 2, qbuf.len, Val(us[s..top]));
    NatClear(qbuf);
    wrong := DivRecursiveStep(qbuf, Part(uu, s, top), Part(v, s, v.len), depth + 1, tempsNum, n0);
    qhat := NatNorm(qbuf);
    PartWords(v, s);
    assert Words(Part(uu, s, top)) == Words(uu)[s..top];
  }

  lemma DivisorPositive(vs: seq<Word>)
    requires Divisor(vs)
    ensures Val(vs) > 0
  {
    DivisorSize(vs);
  }

  lemma RoomInBuffer(vh: int, a: nat, b: nat, h: int)
    requires 0 <= h < vh * Pow(a) && a <= b && vh >= 0
    ensures h < vh * Pow(b)
  {
    PowMono(a, b);
    MulMono(Pow(a), Pow(b), vh);
    assert Pow(a) * vh == vh * Pow(a) && Pow(b) * vh == vh * Pow(b);
  }

  // x below W^top: its words from top on are zero, and s .. top is everything above word s.
  lemma LeadingPart(us: seq<Word>, s: nat, top: nat)
    requires s <= top <= |us| && Val(us) < Pow(top)
    ensures Val(us) == Val(us[..s]) + Pow(s) * Val(us[s..top])
    ensures forall k :: top <= k < |us| ==> us[k] == 0
    ensures 0 <= Val(us[s..top]) && Val(us[s..top]) * Pow(s) <= Val(us) && 0 <= Val(us[..s]) < Pow(s)
  {
    hide Val, Pow;
    SmallHasZeros(us, top);
    ZeroTail(us, top);
    ValSplit(us[..top], s);
    assert us[..top][..s] == us[..s] && us[..top][s..] == us[s..top];
    ValBound(us[..s]);
    ValBound(us[s..top]);
    assert Pow(s) * Val(us[s..top]) == Val(us[s..top]) * Pow(s);
  }

  // The same split after the words s .. top have been replaced
  lemma SplitAgain(us: seq<Word>, ws: seq<Word>, s: nat, top: nat)
    requires |us| == |ws| && s <= top <= |us| && ws[..s] == us[..s] && ws[top..] == us[top..]
    requires forall k :: top <= k < |us| ==> us[k] == 0
    ensures Val(ws) == Val(us[..s]) + Pow(s) * Val(ws[s..top])
  {
    hide Val, Pow;
    forall k | top <= k < |ws| ensures ws[k] == 0 { assert ws[k] == ws[top..][k - top] == us[top..][k - top]; }
    ZeroTail(ws, top);
    ValSplit(ws[..top], s);
    assert ws[..top][..s] == ws[..s] && ws[..top][s..] == ws[s..top];
  }

  lemma EstimateFollows(us: seq<Word>, ws: seq<Word>, vs: seq<Word>, s: nat, top: nat, q: int)
    requires Divisor(vs) && s < |vs| && 2 * s + 2 <= |vs| && s <= top <= |us| == |ws| && q >= 0
    requires Val(us) == Val(us[..s]) + Pow(s) * Val(us[s..top]) && 0 <= Val(us[..s]) < Pow(s)
    requires Val(ws) == Val(us[..s]) + Pow(s) * Val(ws[s..top])
    requires Val(us[s..top]) == q * Val(vs[s..]) + Val(ws[s..top]) && 0 <= Val(ws[s..top]) < Val(vs[s..])
    requires Val(us[s..top]) < Pow(|vs| + 1) && Val(us[s..top]) < (2 * Val(vs[s..]) + 2) * Val(vs[s..])
    ensures var x, vp, vl := Val(us), HighPart(vs, s), Val(vs[..s]);
      && Correcting(x, q, Val(ws), q * vl, vp, vl)
      && (q - 2) * (vp + vl) <= x && 0 <= q * vl < Pow(|vs|)
  {
    hide Val, Pow, Correcting;
    ValSplit(vs, s);
    ValBound(vs[..s]);
    var h, vh, vl := Val(us[s..top]), Val(vs[s..]), Val(vs[..s]);
    PendingShort(vs, s, h, q);
    assert Pow(s) * vh == vh * Pow(s);
    EstimateState(Val(us), vh * Pow(s) + vl, h, Val(ws[s..top]), Val(us[..s]), vh, vl, Pow(s), q);
  }

  lemma StateReady(uu: Nat, qhat: Nat, qhatv: Nat, v: Nat, s: nat, x: int)
    requires InBounds(uu) && InBounds(qhat) && InBounds(qhatv) && InBounds(v) && 0 < s < v.len <= uu.len
    requires uu.data != qhat.data && uu.data != qhatv.data && uu.data != v.data
    requires qhat.data != qhatv.data && qhat.data != v.data && qhatv.data != v.data
    requires Divisor(Words(v)) && 0 <= x < Pow(uu.len)
    requires Normal(Words(qhatv)) && (Val(Words(qhatv)) > 0 ==> StoredIs(qhatv, s))
    requires var q, vp, vl := Val(Words(qhat)), HighPart(Words(v), s), Val(Words(v)[..s]);
      && Val(Words(qhatv)) == q * vl && Correcting(x, q, Val(Words(uu)), q * vl, vp, vl)
      && (q - 2) * (vp + vl) <= x && 0 <= q * vl < Pow(v.len)
    ensures Separate(uu, qhat, qhatv, v, s) && CorrState(uu, qhat, qhatv, v, s, x, 2)
  {
    hide Val, Pow, Correcting, HighPart, StoredIs, Divisor;
    NormalShort(Words(qhatv), v.len);
  }

  // Lines 185-188 and 212-216
  method SubtractPending(uu: Nat, qhat: Nat, qhatv: Nat, v: Nat, s: nat, ghost x: int, ghost slack: int)
    requires Separate(uu, qhat, qhatv, v, s) && CorrState(uu, qhat, qhatv, v, s, x, slack)
    requires Val(Words(qhatv)) <= Val(Words(uu))
    modifies uu.data
    ensures OnlyWithin(uu.data, uu.off, uu.off + uu.len)
    ensures x == Val(Words(qhat)) * Val(Words(v)) + Val(Words(uu)) && 0 <= Val(Words(uu)) < Val(Words(v))
  {
    hide Val, Pow, Correcting, HighPart, StoredIs;
    ghost var vs := Words(v);
    HighPartSize(vs, s);
    CorrectionDone(x, Val(Words(qhat)), Val(Words(uu)), Val(Words(qhatv)), HighPart(vs, s), Val(vs[..s]));
    ghost var _ := SubThenRipple(uu, qhatv, qhatv.len, uu.len, Repaired);
  }

  // One wide digit at word i: z gains it there, u loses its multiple of the divisor.
  method BlockStep(z: Nat, u: Nat, v: Nat, qbuf: Nat, i: nat, top: nat, depth: nat, tempsNum: nat,
                   ghost n0: nat, ghost u0: int) returns (ghost q: int, ghost wrong: bool)
    requires InBounds(z) && InBounds(u) && InBounds(v) && InBounds(qbuf)
    requires z.data != u.data && z.data != v.data && u.data != v.data
    requires qbuf.data != z.data && qbuf.data != u.data && qbuf.data != v.data
    requires Divisor(Words(v)) && v.len >= DIV_RECURSIVE_THRESHOLD && v.len / 2 + 1 <= qbuf.len
    requires i <= z.len && i <= u.len && v.len <= top <= u.len - i
    requires Val(Tail(u, i)) < Pow(top) && Val(Tail(u, i)) < Pow(v.len + v.len / 2)
    requires u0 == Val(Words(z)) * Val(Words(v)) + Val(Words(u)) && u0 < Val(Words(v)) * Pow(z.len)
    requires DepthBound(v.len, depth, n0) && tempsNum == 2 * BitLen(n0)
    modifies z.data, u.data, qbuf.data
    ensures OnlyWithin(z.data, z.off, z.off + z.len) && OnlyWithin(u.data, u.off, u.off + u.len)
    ensures u0 == Val(Words(z)) * Val(Words(v)) + Val(Words(u))
    ensures 0 <= Val(Words(u)) < Val(Words(v)) * Pow(i)
    ensures Val(Words(z)) == old(Val(Words(z))) + q * Pow(i)
    ensures wrong <==> BlockGoesWrong(Val(old(Tail(u, i))), Words(v))
    decreases v.len, 3
  {
    hide Val, Pow, Divisor, DepthBound, BitLen, BlockGoesWrong;
    ghost var us, vs, zv := Words(u), Words(v), Val(Words(z));
    assert us[i..] == Tail(u, i);
    var qhat: Nat;
    qhat, wrong := WideDigit(Part(u, i, u.len), v, qbuf, top, depth, tempsNum, n0);
    q := Val(Words(qhat));
    ValBound(Words(qhat));
    assert Words(u)[..i] == us[..i] && Words(u)[i..] == Tail(u, i);
    DigitMoves(u0, zv, zv + Pow(i) * q, vs, us, Words(u), i, q, z.len);
    AddInside(z, qhat, i);
    assert q * Pow(i) == Pow(i) * q;
  }

  // The digit q at word i: u loses its multiple of the divisor, and the quotient has room for it.
  lemma DigitMoves(u0: int, z: int, z': int, vs: seq<Word>, us: seq<Word>, ws: seq<Word>, i: nat, q: int, room: nat)
    requires Divisor(vs) && i <= |us| == |ws| && us[..i] == ws[..i] && z' == z + Pow(i) * q
    requires u0 == z * Val(vs) + Val(us) && u0 < Val(vs) * Pow(room)
    requires Val(us[i..]) == q * Val(vs) + Val(ws[i..]) && 0 <= Val(ws[i..]) < Val(vs) && q >= 0
    ensures z' < Pow(room) && u0 == z' * Val(vs) + Val(ws) && 0 <= Val(ws) < Val(vs) * Pow(i)
  {
    hide *;
    ValSplit(us, i);
    ValSplit(ws, i);
    ValBound(us[..i]);
    DivisorPositive(vs);
    DigitRoom(u0, z, z', Val(vs), Pow(room), Val(us), Val(ws), Val(us[..i]), Pow(i), Val(us[i..]), q, Val(ws[i..]));
  }

  // The digit, shifted to its place, still fits the quotient.
  lemma DigitRoom(u0: int, z: int, z': int, v: int, room: int, u: int, u': int, low: int, p: int,
                  x: int, q: int, r: int)
    requires z' == z + p * q && u0 == z * v + u && u == low + p * x && u' == low + p * r
    requires u0 < v * room && v > 0 && p > 0 && 0 <= low < p
    requires x == q * v + r && 0 <= r < v && q >= 0
    ensures z' < room && u0 == z' * v + u' && 0 <= u' < v * p
  {
    assert (z + p * q) * v == z * v + p * (q * v);
    assert p * (q * v + r) == p * (q * v) + p * r;
    MulMono(0, r, p);
    assert p * r == r * p && v * room == room * v;
    CancelLt(z + p * q, room, v);
    MulMono(r + 1, v, p);
    assert (r + 1) * p == r * p + p;
  }

  // Lines 150-218: blocks of B words from the top, then the rest
  method BlockDivide(z: Nat, u: Nat, v: Nat, depth: nat, tempsNum: nat, ghost n0: nat) returns (ghost wrong: bool)
    requires InBounds(z) && InBounds(u) && InBounds(v)
    requires z.data != u.data && z.data != v.data && u.data != v.data
    requires Divisor(Words(v)) && Val(Words(z)) == 0 && Val(Words(u)) < Val(Words(v)) * Pow(z.len)
    requires Normal(Words(u)) && DIV_RECURSIVE_THRESHOLD <= v.len <= u.len
    requires DepthBound(v.len, depth, n0) && tempsNum == 2 * BitLen(n0)
    modifies z.data, u.data
    ensures OnlyWithin(z.data, z.off, z.off + z.len) && OnlyWithin(u.data, u.off, u.off + u.len)
    ensures Val(old(Words(u))) == Val(Words(z)) * Val(Words(v)) + Val(Words(u))
    ensures 0 <= Val(Words(u)) < Val(Words(v))
    ensures wrong <==> BlocksGoWrong(Val(old(Words(u))), Words(v), u.len - v.len, u.len - v.len)
    decreases v.len, 5
  {
    hide Val, Pow, Divisor, DepthBound, BitLen, BlockGoesWrong, BlocksGoWrong, Rest;
    ghost var u0, m := Val(Words(u)), u.len - v.len;
    ValBound(Words(u));
    RoomForQuotient(Words(u), Words(v), z.len);
    var qbuf := NewLen(v.len);
    ZeroTimes(Val(Words(z)), Val(Words(v)));
    var j: nat;
    j, wrong := BlockLoop(z, u, v, qbuf, depth, tempsNum, n0, u0);
    WindowFits(u, v, j, 0, v.len / 2);
    assert Tail(u, 0) == Words(u);
    ValBound(Words(u));
    LastBlock(u0, Words(v), m, j);
    ghost var q: int, last: bool;
    q, last := BlockStep(z, u, v, qbuf, 0, u.len, depth, tempsNum, n0, u0);
    wrong := wrong || last;
    PowZero();
  }

  // The loop of lines 162-192
  method BlockLoop(z: Nat, u: Nat, v: Nat, qbuf: Nat, depth: nat, tempsNum: nat, ghost n0: nat, ghost u0: int)
    returns (j: nat, ghost wrong: bool)
    requires InBounds(z) && InBounds(u) && InBounds(v) && InBounds(qbuf)
    requires z.data != u.data && z.data != v.data && u.data != v.data
    requires qbuf.data != z.data && qbuf.data != u.data && qbuf.data != v.data
    requires Divisor(Words(v)) && DIV_RECURSIVE_THRESHOLD <= v.len <= u.len && v.len / 2 + 1 <= qbuf.len
    requires u.len <= v.len + z.len
    requires Val(Words(z)) == 0 && 0 <= u0 == Val(Words(u)) < Val(Words(v)) * Pow(z.len)
    requires DepthBound(v.len, depth, n0) && tempsNum == 2 * BitLen(n0)
    modifies z.data, u.data, qbuf.data
    ensures OnlyWithin(z.data, z.off, z.off + z.len) && OnlyWithin(u.data, u.off, u.off + u.len)
    ensures u0 == Val(Words(z)) * Val(Words(v)) + Val(Words(u))
    ensures j <= v.len / 2 && j <= u.len - v.len && (j < u.len - v.len ==> Val(Words(u)) < Val(Words(v)) * Pow(j))
    ensures Val(Words(u)) == Rest(u0, Words(v), u.len - v.len, j)
    ensures var m := u.len - v.len;
      BlocksGoWrong(u0, Words(v), m, m) <==> wrong || BlocksGoWrong(u0, Words(v), m, j)
    decreases v.len, 4
  {
    hide Val, Pow, Divisor, DepthBound, BitLen, BlockGoesWrong, BlocksGoWrong, Rest;
    var m, B := u.len - v.len, v.len / 2;
    ghost var zq, vs := 0, Words(v);
    j, wrong := m, false;
    ZeroTimes(0, Val(vs));
    ZeroTimes(0, Pow(m));
    FirstRest(u0, vs, m);
    while j > B
      invariant 0 <= j <= m
      invariant OnlyWithin(z.data, z.off, z.off + z.len) && OnlyWithin(u.data, u.off, u.off + u.len)
      invariant u0 == Val(Words(z)) * Val(Words(v)) + Val(Words(u))
      invariant j < m ==> Val(Words(u)) < Val(Words(v)) * Pow(j)
      invariant Words(v) == vs && Val(Words(z)) == zq * Pow(j) && Val(Words(u)) == Rest(u0, vs, m, j)
      invariant BlocksGoWrong(u0, vs, m, m) <==> wrong || BlocksGoWrong(u0, vs, m, j)
    {
      WindowFits(u, v, j, j - B, B);
      WindowValue(u, j - B);
      NextBlock(u0, vs, m, j);
      ghost var q: int, bad: bool;
      q, bad := BlockStep(z, u, v, qbuf, j - B, B + v.len, depth, tempsNum, n0, u0);
      wrong := wrong || bad;
      NextRest(u0, vs, m, j - B, zq, q, B, Val(Words(z)), Val(Words(u)));
      zq := zq * Pow(B) + q;
      j := j - B;
    }
  }

  // ---- where the comparison with natNew(0) goes wrong -------------------------------------------

  // natCmp(raw, rest) does not answer by value.
  ghost predicate Misjudged(raw: seq<Word>, rest: seq<Word>) {
    (if |raw| == |rest| then Order(Val(raw), Val(rest)) else Order(|raw|, |rest|)) != Order(Val(raw), Val(rest))
  }

  // Some comparison of the division of x by vs with the product as natMul returns it is misjudged.
  ghost predicate GoesWrong(x: int, vs: seq<Word>)
    requires Divisor(vs)
    decreases |vs|, 2, 0
  {
    && |vs| >= DIV_RECURSIVE_THRESHOLD && x > 0 && WordLen(x) >= |vs|
    && BlocksGoWrong(x, vs, WordLen(x) - |vs|, WordLen(x) - |vs|)
  }

  // One of the blocks from word j down, of the m words of quotient
  ghost predicate BlocksGoWrong(x: int, vs: seq<Word>, m: nat, j: nat)
    requires Divisor(vs) && |vs| >= DIV_RECURSIVE_THRESHOLD
    decreases |vs|, 1, j
  {
    var B := |vs| / 2;
    if j > B then BlockGoesWrong(Rest(x, vs, m, j) / Pow(j - B), vs) || BlocksGoWrong(x, vs, m, j - B)
    else BlockGoesWrong(Rest(x, vs, m, j), vs)
  }

  // The block with this window: its own comparison, or one in the division of its leading words
  ghost predicate BlockGoesWrong(window: int, vs: seq<Word>)
    requires Divisor(vs) && |vs| >= DIV_RECURSIVE_THRESHOLD
    decreases |vs|, 0, 0
  {
    var s := |vs| / 2 - 1;
    window == 0 || GoesWrong(window / Pow(s), vs[s..])
  }

  // What is left of x once its quotient words from j on are known
  ghost function Rest(x: int, vs: seq<Word>, m: nat, j: nat): int
    requires Divisor(vs)
  {
    DivisorPositive(vs);
    MulMono(1, Val(vs), Pow(j));
    if j == m then x else x % (Val(vs) * Pow(j))
  }

  // u[i..] stays within n + (j - i) words once u is below v * W^j.
  lemma WindowFits(u: Nat, v: Nat, j: nat, i: nat, B: nat)
    requires InBounds(u) && InBounds(v) && Divisor(Words(v)) && i <= j <= u.len - v.len && j - i <= B
    requires j < u.len - v.len ==> Val(Words(u)) < Val(Words(v)) * Pow(j)
    ensures 0 <= Val(Tail(u, i)) < Pow(v.len + (j - i)) <= Pow(v.len + B)
  {
    hide Val, Pow;
    var us, n := Words(u), v.len;
    assert us[i..] == Tail(u, i);
    ValSplit(us, i);
    ValBound(us[..i]);
    ValBound(Tail(u, i));
    PowMono(n + (j - i), n + B);
    if j == u.len - n {
    } else {
      DivisorSize(Words(v));
      PowAdd(n, j);
      PowAdd(i, n + (j - i));
      MulMono(Val(Words(v)), Pow(n), Pow(j));
      assert Pow(i) * Val(us[i..]) == Val(us[i..]) * Pow(i) && Pow(i) * Pow(n + (j - i)) == Pow(n + (j - i)) * Pow(i);
      CancelLt(Val(us[i..]), Pow(n + (j - i)), Pow(i));
    }
  }

  method NatDivRecursive(z: Nat, u: Nat, v: Nat) returns (ghost wrong: bool)
    requires InBounds(z) && InBounds(u) && InBounds(v)
    requires z.data != u.data && z.data != v.data && u.data != v.data
    requires Divisor(Words(v)) && Val(Words(u)) < Val(Words(v)) * Pow(z.len)
    modifies z.data, u.data
    ensures OnlyWithin(z.data, z.off, z.off + z.len) && OnlyWithin(u.data, u.off, u.off + u.len)
    ensures Val(old(Words(u))) == Val(Words(z)) * Val(Words(v)) + Val(Words(u))
    ensures 0 <= Val(Words(u)) < Val(Words(v))
    ensures wrong <==> GoesWrong(Val(old(Words(u))), Words(v))
  {
    hide Val, Pow, Divisor, BitLen, GoesWrong;
    FirstDepth(v.len);
    NatClear(z);
    wrong := DivRecursiveStep(z, u, v, 0, 2 * BitLen(v.len), v.len);
  }

  lemma FirstDepth(n: nat)
    ensures DepthBound(n, 0, n)
  {}

  lemma NothingGoesWrong(x: int, vs: seq<Word>)
    requires Divisor(vs) && x == 0
    ensures !GoesWrong(x, vs)
  {}

  lemma BlocksDecide(us: seq<Word>, vs: seq<Word>)
    requires Divisor(vs) && Normal(us) && |us| > 0
    ensures if |vs| < DIV_RECURSIVE_THRESHOLD || |us| < |vs| then !GoesWrong(Val(us), vs)
            else GoesWrong(Val(us), vs) <==> BlocksGoWrong(Val(us), vs, |us| - |vs|, |us| - |vs|)
  {
    LenOfNormal(us);
    hide Val, WordLen, BlocksGoWrong, Divisor;
  }

  lemma BlockDecides(x: int, vs: seq<Word>)
    requires Divisor(vs) && |vs| >= DIV_RECURSIVE_THRESHOLD
    ensures var s := |vs| / 2 - 1;
      Divisor(vs[s..]) && (BlockGoesWrong(x, vs) <==> x == 0 || GoesWrong(x / Pow(s), vs[s..]))
  {}

  // The first comparison of a block: misjudged exactly if the window is zero.
  lemma FirstComparison(us: seq<Word>, qs: seq<Word>, raw: seq<Word>, vs: seq<Word>, s: nat, x: int)
    requires Divisor(vs) && 0 < s < |vs| && 2 * s + 2 <= |vs| && Normal(qs) && x >= 0
    requires if qs == [] then raw == [0] else Normal(raw)
    requires Correcting(x, Val(qs), Val(us), Val(qs) * Val(vs[..s]), HighPart(vs, s), Val(vs[..s]))
    requires Val(raw) == Val(qs) * Val(vs[..s])
    ensures Misjudged(raw, us[..NormLen(us)]) <==> x == 0
  {
    hide Val, Pow, HighPart, Divisor;
    var rest := us[..NormLen(us)];
    NormLenMeans(us);
    LenOfNormal(rest);
    LenOfNormal(qs);
    HighPartPositive(vs, s);
    if qs == [] {
      RawZeroProduct(rest);
      ValOne([0]);
      ZeroTimes(Val(qs), HighPart(vs, s));
    } else {
      CmpIsValueOrder(raw, rest);
      MulMono(1, Val(qs), HighPart(vs, s));
    }
  }

  lemma HighPartPositive(vs: seq<Word>, s: nat)
    requires Divisor(vs) && 2 * s + 2 <= |vs|
    ensures HighPart(vs, s) > 0
  {
    hide Val, Pow;
    DivisorPositive(vs[s..]);
    MulMono(1, Val(vs[s..]), Pow(s));
    assert Pow(s) * Val(vs[s..]) == Val(vs[s..]) * Pow(s);
  }

  lemma FirstRest(x: int, vs: seq<Word>, m: nat)
    requires Divisor(vs)
    ensures Rest(x, vs, m, m) == x
  {}

  lemma NextBlock(x: int, vs: seq<Word>, m: nat, j: nat)
    requires Divisor(vs) && |vs| >= DIV_RECURSIVE_THRESHOLD && j > |vs| / 2
    ensures BlocksGoWrong(x, vs, m, j) <==>
              BlockGoesWrong(Rest(x, vs, m, j) / Pow(j - |vs| / 2), vs) || BlocksGoWrong(x, vs, m, j - |vs| / 2)
  {
    hide Rest, BlockGoesWrong, Divisor, Pow;
  }

  lemma LastBlock(x: int, vs: seq<Word>, m: nat, j: nat)
    requires Divisor(vs) && |vs| >= DIV_RECURSIVE_THRESHOLD && j <= |vs| / 2
    ensures BlocksGoWrong(x, vs, m, j) <==> BlockGoesWrong(Rest(x, vs, m, j), vs)
  {
    hide Rest, BlockGoesWrong, Divisor, Pow;
  }

  lemma WindowValue(u: Nat, i: nat)
    requires InBounds(u) && i <= u.len
    ensures Val(Tail(u, i)) == Val(Words(u)) / Pow(i)
  {
    hide Val, Pow;
    var us := Words(u);
    assert us[i..] == Tail(u, i);
    ValSplit(us, i);
    ValBound(us[..i]);
    assert Pow(i) * Val(us[i..]) == Val(us[i..]) * Pow(i);
    DivModUnique(Val(us), Pow(i), Val(us[i..]), Val(us[..i]));
  }

  // After a block the quotient so far is a multiple of W^i, so the rest is the remainder by v W^i.
  lemma NextRest(x: int, vs: seq<Word>, m: nat, i: nat, zq: int, q: int, B: nat, z: int, u: int)
    requires Divisor(vs) && i < m && z == zq * Pow(i + B) + q * Pow(i)
    requires x == z * Val(vs) + u && 0 <= u < Val(vs) * Pow(i)
    ensures z == (zq * Pow(B) + q) * Pow(i) && u == Rest(x, vs, m, i)
  {
    hide Val, Pow, Divisor;
    PowAdd(i, B);
    DivisorPositive(vs);
    MultipleOf(zq, q, Pow(i), Pow(B), Val(vs));
    DivModUnique(x, Val(vs) * Pow(i), zq * Pow(B) + q, u);
  }

  lemma MultipleOf(zq: int, q: int, p: int, b: int, v: int)
    ensures zq * (p * b) + q * p == (zq * b + q) * p
    ensures ((zq * b + q) * p) * v == (zq * b + q) * (v * p)
  {}

  // Every multiple v * W^m of a long divisor by more words than half of it goes wrong: the first
  // block clears the dividend, and the next window is zero.
  lemma MultipleGoesWrong(vs: seq<Word>, m: nat)
    requires Divisor(vs) && |vs| >= 100 && m > |vs| / 2
    ensures GoesWrong(Val(vs) * Pow(m), vs)
  {
    hide Val, Pow, Divisor, BlockGoesWrong, BlocksGoWrong, WordLen;
    var n, x, B := |vs|, Val(vs) * Pow(m), |vs| / 2;
    MultipleLen(vs, m);
    NextBlock(x, vs, m, m);
    RestOfMultiple(vs, m, m - B);
    ZeroWindow(vs);
    if m - B > B {
      NextBlock(x, vs, m, m - B);
      DivModUnique(0, Pow(m - B - B), 0, 0);
    } else {
      LastBlock(x, vs, m, m - B);
    }
  }

  lemma MultipleLen(vs: seq<Word>, m: nat)
    requires Divisor(vs)
    ensures Val(vs) * Pow(m) > 0 && WordLen(Val(vs) * Pow(m)) == |vs| + m
  {
    DivisorIsNormal(vs);
    hide *;
    NormalLow(vs);
    ValBound(vs);
    PowAdd(|vs| - 1, m);
    PowAdd(|vs|, m);
    ScaledBetween(Pow(|vs| - 1), Val(vs), Pow(|vs|), Pow(m));
    WordLenIs(Val(vs) * Pow(m), |vs| + m);
  }

  lemma DivisorIsNormal(vs: seq<Word>)
    requires Divisor(vs)
    ensures |vs| > 1 && Normal(vs)
  {}

  lemma ScaledBetween(a: int, v: int, b: int, p: int)
    requires 0 < a <= v < b && p > 0
    ensures 0 < a * p <= v * p < b * p
  {
    MulMono(1, a, p);
    MulMono(a, v, p);
    MulMono(v + 1, b, p);
    assert (v + 1) * p == v * p + p;
  }

  lemma RestOfMultiple(vs: seq<Word>, m: nat, j: nat)
    requires Divisor(vs) && j < m
    ensures Rest(Val(vs) * Pow(m), vs, m, j) == 0
  {
    hide Val, Pow, Divisor;
    DivisorPositive(vs);
    PowAdd(m - j, j);
    MulMono(1, Val(vs), Pow(j));
    assert Val(vs) * (Pow(m - j) * Pow(j)) == Pow(m - j) * (Val(vs) * Pow(j));
    DivModUnique(Val(vs) * Pow(m), Val(vs) * Pow(j), Pow(m - j), 0);
  }

  lemma ZeroWindow(vs: seq<Word>)
    requires Divisor(vs) && |vs| >= DIV_RECURSIVE_THRESHOLD
    ensures BlockGoesWrong(0, vs)
  {}

  // The comparison of line 174 with the unnormalised zero natNew(0): it answers by value unless
  // the rest of the dividend is zero as well.
  lemma RawZeroProduct(us: seq<Word>)
    requires Normal(us)
    ensures (if |[0 as Word]| == |us| then Order(Val([0]), Val(us)) else Order(1, |us|)) == Order(0, Val(us))
            <==> us != []
  {
    ValOne([0]);
    if |us| == 0 {
      ValEmpty(us);
    } else {
      NormalLow(us);
    }
  }
}
