/** cmake/bigint/src/natdiv.c, second part: schoolbook division (Knuth's Algorithm D). */
module DivBasic {
  import opened Bits
  import opened Base
  import opened Nats
  import opened NatAddSub
  import opened WordDiv
  import opened MulBasic

  // ---- the quotient digit estimate --------------------------------------------------

  // x and v are written with three and two leading words: h covers the first two of x.
  ghost predicate Leading(x: int, v: int, h: int, u2: int, vn1: int, vn2: int, p: int) {
    && p > 0 && 0 <= vn2 < W && 0 < vn1 < W && 0 <= u2 < W
    && 0 <= x - (h * (W * p) + u2 * p) < p
    && 0 <= v - (vn1 * (W * p) + vn2 * p) < p
  }

  // A failed test proves the digit too large.
  lemma TestProvesHigh(x: int, v: int, h: int, u2: int, vn1: int, vn2: int, p: int, q: int, rhat: int)
    requires Leading(x, v, h, u2, vn1, vn2, p) && Estimate(q, rhat, h, vn1) && q >= 0
    requires q * vn2 > rhat * W + u2
    ensures q * v > x
  {
    MulMono(vn1 * (W * p) + vn2 * p, v, q);
    assert (vn1 * (W * p) + vn2 * p) * q == (q * vn1) * (W * p) + (q * vn2) * p;
    assert (q * vn1 + rhat) * (W * p) == (q * vn1) * (W * p) + (rhat * W) * p;
    MulMono(rhat * W + u2 + 1, q * vn2, p);
    assert (rhat * W + u2 + 1) * p == (rhat * W) * p + u2 * p + p;
    assert v * q == q * v;
  }

  // A passed test, or a remainder past one word, proves it at most one too large.
  lemma TestProvesClose(x: int, v: int, h: int, u2: int, vn1: int, vn2: int, p: int, q: int, rhat: int)
    requires Leading(x, v, h, u2, vn1, vn2, p) && Estimate(q, rhat, h, vn1) && 1 <= q <= W && rhat >= 0
    requires q * vn2 <= rhat * W + u2 || rhat >= W
    ensures (q - 1) * v <= x
  {
    MulMono(v, vn1 * (W * p) + vn2 * p + p, q - 1);
    assert (vn1 * (W * p) + vn2 * p + p) * (q - 1)
        == (q * vn1) * (W * p) - vn1 * (W * p) + ((q - 1) * (vn2 + 1)) * p;
    assert (q * vn1 + rhat) * (W * p) == (q * vn1) * (W * p) + (rhat * W) * p;
    CloseRest(q, vn1, vn2, rhat, u2);
    MulMono((q - 1) * (vn2 + 1), rhat * W + u2 + vn1 * W, p);
    assert (rhat * W + u2 + vn1 * W) * p == (rhat * W) * p + u2 * p + vn1 * (W * p);
    assert v * (q - 1) == (q - 1) * v;
  }

  lemma CloseRest(q: int, vn1: int, vn2: int, rhat: int, u2: int)
    requires 1 <= q <= W && 0 < vn1 && 0 <= vn2 < W && rhat >= 0 && u2 >= 0
    requires q * vn2 <= rhat * W + u2 || rhat >= W
    ensures (q - 1) * (vn2 + 1) <= rhat * W + u2 + vn1 * W
  {
    assert (q - 1) * (vn2 + 1) == q * vn2 + q - vn2 - 1;
    if rhat >= W {
      MulMono(q, W, vn2);
      MulMono(W, rhat, W);
      assert W * vn2 <= W * (W - 1);
    }
  }

  // The branch without a test: leading words equal, estimate W - 1.
  lemma EqualLeads(x: int, v: int, u1: int, u2: int, vn1: int, vn2: int, p: int)
    requires Leading(x, v, vn1 * W + u1, u2, vn1, vn2, p) && TOP <= vn1 && 0 <= u1 < W
    ensures (W - 2) * v <= x
  {
    MulMono(v, vn1 * (W * p) + (vn2 + 1) * p, W - 2);
    MulMono(vn2 + 1, W, p);
    MulMono(v, (vn1 + 1) * (W * p), W - 2);
    assert (vn1 + 1) * (W * p) * (W - 2) == (vn1 * W - 2 * vn1 + W - 2) * (W * p);
    MulMono(vn1 * W - 2 * vn1 + W - 2, vn1 * W, W * p);
    MulMono(vn1 * W, vn1 * W + u1, W * p);
    assert u2 * p >= 0;
    assert v * (W - 2) == (W - 2) * v;
  }

  // qhat is x / v or one more, and at most 1 when the top word is 0.
  ghost predicate NearDigit(qhat: int, x: int, v: int) {
    qhat >= 0 && (qhat - 1) * v <= x < (qhat + 1) * v
  }

  lemma DigitUpper(x: int, v: int, h: int, u2: int, vn1: int, vn2: int, p: int, q: int, rhat: int)
    requires Leading(x, v, h, u2, vn1, vn2, p) && Estimate(q, rhat, h, vn1) && 0 <= q && 0 <= rhat < vn1
    ensures x < (q + 1) * v
  {
    MulMono(vn1 * (W * p), v, q + 1);
    assert (vn1 * (W * p)) * (q + 1) == ((q + 1) * vn1) * (W * p);
    assert (q + 1) * vn1 == q * vn1 + vn1;
    MulMono(h + 1, (q + 1) * vn1, W * p);
    assert (h + 1) * (W * p) == h * (W * p) + W * p;
    MulMono(u2 + 1, W, p);
    assert (u2 + 1) * p == u2 * p + p;
    assert vn2 * p >= 0;
    assert v * (q + 1) == (q + 1) * v;
  }

  lemma Positive(q: int, v: int, x: int)
    requires q * v > x >= 0 && v >= 0
    ensures q >= 1
  {
    if q <= 0 { MulMono(q, 0, v); }
  }

  // (x1, x2) > (y1, y2) as double words
  function GreaterThan(x1: Word, x2: Word, y1: Word, y2: Word): (r: bool)
    ensures r <==> x1 * W + x2 > y1 * W + y2
  {
    x1 > y1 || (x1 == y1 && x2 > y2)
  }

  // The estimate of one quotient digit of x by v from their leading words, with the test
  // against the second word of v.
  method EstimateDigit(ujn: Word, u1: Word, u2: Word, vn1: Word, vn2: Word, rec: Word,
                       ghost x: int, ghost v: int, ghost p: int) returns (qhat: Word)
    requires Leading(x, v, ujn * W + u1, u2, vn1, vn2, p) && TOP <= vn1 && ujn <= vn1
    requires 0 <= x < W * v && IsReciprocal(rec, Normalised(vn1))
    ensures NearDigit(qhat, x, v)
    ensures ujn == 0 ==> qhat <= 1
  {
    hide Leading, NearDigit, IsReciprocal, Normalised, Estimate, U64Mul;
    qhat := W - 1;
    if ujn != vn1 {
      var rhat: Word;
      qhat, rhat := DivWW(ujn, u1, vn1, rec);
      StartEstimate(qhat, rhat, ujn, u1, vn1);
      DigitUpper(x, v, ujn * W + u1, u2, vn1, vn2, p, qhat, rhat);
      qhat := RefineDigit(qhat, rhat, ujn * W + u1, u2, vn1, vn2, x, v, p);
    } else {
      EqualLeads(x, v, u1, u2, vn1, vn2, p);
      NearTop(x, v);
    }
  }

  lemma StartEstimate(q: Word, rhat: Word, ujn: Word, u1: Word, vn1: Word)
    requires q * vn1 + rhat == ujn * W + u1 && TOP <= vn1
    ensures Estimate(q, rhat, ujn * W + u1, vn1)
    ensures ujn == 0 ==> q <= 1
  {
    if ujn == 0 {
      MulMono(TOP, vn1, q);
    }
  }

  lemma NearTop(x: int, v: int)
    requires (W - 2) * v <= x < W * v
    ensures NearDigit(W - 1, x, v)
  {}

  method RefineDigit(q0: Word, r0: Word, ghost h: int, u2: Word, vn1: Word, vn2: Word,
                     ghost x: int, ghost v: int, ghost p: int) returns (qhat: Word)
    requires Leading(x, v, h, u2, vn1, vn2, p) && Estimate(q0, r0, h, vn1)
    requires 0 <= x < (q0 + 1) * v
    ensures NearDigit(qhat, x, v) && qhat <= q0
  {
    hide Leading, NearDigit, Estimate, U64Mul;
    qhat := q0;
    var rhat: Word := r0;
    ghost var full: int := r0;
    var pr := U64Mul(qhat, vn2);
    var x1: Word, x2: Word := pr.1, pr.0;
    while GreaterThan(x1, x2, rhat, u2)
      invariant x2 + W * x1 == qhat * vn2 && full == rhat && qhat <= q0
      invariant Estimate(qhat, full, h, vn1) && x < (qhat + 1) * v
      decreases qhat
    {
      TestProvesHigh(x, v, h, u2, vn1, vn2, p, qhat, full);
      LeadingPositive(x, v, h, u2, vn1, vn2, p);
      Positive(qhat, v, x);
      OneLess(qhat, full, h, vn1);
      qhat := qhat - 1;
      var preRhat := rhat;
      rhat := Add64(rhat, vn1);
      full := full + vn1;
      if rhat < preRhat {
        CloseAfterBreak(x, v, h, u2, vn1, vn2, p, qhat, full);
        return;
      }
      pr := U64Mul(qhat, vn2);
      x1, x2 := pr.1, pr.0;
    }
    CloseAfterTest(x, v, h, u2, vn1, vn2, p, qhat, full);
  }

  lemma LeadingPositive(x: int, v: int, h: int, u2: int, vn1: int, vn2: int, p: int)
    requires Leading(x, v, h, u2, vn1, vn2, p)
    ensures v > 0
  {
    assert vn1 * (W * p) > 0 && vn2 * p >= 0;
  }

  lemma OneLess(q: int, rhat: int, h: int, vn1: int)
    requires Estimate(q, rhat, h, vn1)
    ensures Estimate(q - 1, rhat + vn1, h, vn1)
  {
    StepBack(q, rhat, h, vn1);
  }

  lemma CloseAfterBreak(x: int, v: int, h: int, u2: int, vn1: int, vn2: int, p: int, q: Word, full: int)
    requires Leading(x, v, h, u2, vn1, vn2, p) && Estimate(q, full, h, vn1) && full >= W
    requires 0 <= x < (q + 1) * v
    ensures NearDigit(q, x, v)
  {
    LeadingPositive(x, v, h, u2, vn1, vn2, p);
    if q >= 1 {
      TestProvesClose(x, v, h, u2, vn1, vn2, p, q, full);
    }
  }

  lemma CloseAfterTest(x: int, v: int, h: int, u2: int, vn1: int, vn2: int, p: int, q: Word, rhat: Word)
    requires Leading(x, v, h, u2, vn1, vn2, p) && Estimate(q, rhat, h, vn1)
    requires q * vn2 <= rhat * W + u2
    requires 0 <= x < (q + 1) * v
    ensures NearDigit(q, x, v)
  {
    LeadingPositive(x, v, h, u2, vn1, vn2, p);
    if q >= 1 {
      TestProvesClose(x, v, h, u2, vn1, vn2, p, q, rhat);
    }
  }

  // ---- words of the dividend and the divisor ------------------------------------------

  lemma TwoLeads(s: seq<Word>, n: nat)
    requires 2 <= n <= |s|
    ensures var p := Pow(n - 2);
      && 0 <= Val(s[..n]) - (s[n - 1] * (W * p) + s[n - 2] * p) < p
      && Pow(n - 1) == W * p && Pow(n) == W * (W * p)
  {
    ValPrefix(s, n - 1);
    ValPrefix(s, n - 2);
    ValBound(s[..n - 2]);
  }

  // What the loop needs to know before it computes digit j: x = u[j..] is below W * v.
  ghost predicate Divisor(vs: seq<Word>) {
    |vs| >= 2 && vs[|vs| - 1] >= TOP
  }

  function WordAt(s: seq<Word>, k: nat): Word {
    if k < |s| then s[k] else 0
  }

  lemma DivisorSize(vs: seq<Word>)
    requires Divisor(vs)
    ensures 0 < TOP * Pow(|vs| - 1) <= Val(vs) < Pow(|vs|)
    ensures Pow(|vs| - 1) <= Val(vs)
  {
    var n := |vs| - 1;
    ValBound(vs);
    ValBound(vs[..n]);
    MulMono(TOP, vs[n], Pow(n));
  }

  lemma WindowSmall(s: seq<Word>, vs: seq<Word>)
    requires Divisor(vs) && |s| >= |vs| && Val(s[1..]) < Val(vs)
    ensures 0 <= Val(s) < W * Val(vs)
    ensures forall k :: |vs| < k < |s| ==> s[k] == 0
  {
    hide Val, Pow;
    ValCons(s);
    ValBound(s[1..]);
    DivisorSize(vs);
    SmallHasZeros(s[1..], |vs|);
    forall k | |vs| < k < |s| ensures s[k] == 0 { assert s[k] == s[1..][k - 1]; }
  }

  // The value of a window whose words past the first n + 1 are zero
  lemma WindowTop(s: seq<Word>, n: nat)
    requires n <= |s| && forall k :: n < k < |s| ==> s[k] == 0
    ensures Val(s) == Val(s[..n]) + WordAt(s, n) * Pow(n)
  {
    if |s| == n {
      TakeAll(s);
    } else {
      ZeroTail(s, n + 1);
      ValPrefix(s, n);
    }
  }

  lemma LeadingWords(s: seq<Word>, vs: seq<Word>)
    requires Divisor(vs) && |s| >= |vs| && Val(s[1..]) < Val(vs)
    ensures var n := |vs|;
      && WordAt(s, n) <= vs[n - 1]
      && Leading(Val(s), Val(vs), WordAt(s, n) * W + s[n - 1], s[n - 2], vs[n - 1], vs[n - 2], Pow(n - 2))
  {
    hide Val, Pow, Leading;
    var n := |vs|;
    var p := Pow(n - 2);
    WindowSmall(s, vs);
    TwoLeads(vs, n);
    TakeAll(vs);
    TwoLeads(s, n);
    WindowTop(s, n);
    TopWordBounded(WordAt(s, n), vs[n - 1], Val(s), Val(vs), s[n - 1], s[n - 2], vs[n - 2], p, Val(s[..n]));
  }

  lemma TopWordBounded(t: int, vn1: int, x: int, v: int, u1: int, u2: int, vn2: int, p: int, low: int)
    requires 0 < p && x == low + t * (W * (W * p)) && 0 <= low - (u1 * (W * p) + u2 * p) < p
    requires 0 <= u1 < W && 0 <= u2 < W && 0 <= vn2 < W && TOP <= vn1 < W && t >= 0
    requires 0 <= v - (vn1 * (W * p) + vn2 * p) < p && x < W * v
    ensures t <= vn1
    ensures Leading(x, v, t * W + u1, u2, vn1, vn2, p)
  {
    assert (t * W + u1) * (W * p) == t * (W * (W * p)) + u1 * (W * p);
    MulMono(vn2 + 1, W, p);
    assert (vn2 + 1) * p == vn2 * p + p;
    assert (vn1 + 1) * (W * p) == vn1 * (W * p) + W * p;
    assert v <= (vn1 + 1) * (W * p);
    assert u1 * (W * p) >= 0 && u2 * p >= 0;
    assert t * (W * (W * p)) < W * ((vn1 + 1) * (W * p));
    assert W * ((vn1 + 1) * (W * p)) == (vn1 + 1) * (W * (W * p));
    CancelLt(t, vn1 + 1, W * (W * p));
  }

  // ---- subtracting one digit's multiple, with at most one add-back ------------------------

  // a1 * P + a0 is x - qhat * v modulo W * P; adding v back clears the top word.
  lemma AddBack(x: int, qhat: int, v: int, p: int, a0: int, a1: Word, b0: int, cc: Word)
    requires NearDigit(qhat, x, v) && 0 < v < p && x >= 0
    requires a0 + p * a1 - W * p == x - qhat * v && 0 <= a0 < p
    requires b0 + cc * p == a0 + v && 0 <= b0 < p && cc <= 1
    ensures Add64(a1, cc) == 0 && b0 == x - (qhat - 1) * v && b0 < v && qhat >= 1
  {
    MulMono(a1 + 1, W, p);
    assert (a1 + 1) * p == p * a1 + p;
    assert (qhat + 1) * v == qhat * v + v && (qhat - 1) * v == qhat * v - v;
    Positive(qhat, v, x);
    var t := x - (qhat - 1) * v;
    assert 0 <= t < v;
    var k: int := cc + a1;
    assert p * k == cc * p + p * a1;
    assert b0 + p * k == t + W * p;
    assert p * k == k * p;
    SameDigit(k, b0, W, t, p);
  }

  lemma AddBackShort(x: int, qhat: int, v: int, p: int, a0: int, b0: int, cc: Word)
    requires NearDigit(qhat, x, v) && 0 < v < p && x >= 0
    requires a0 - p == x - qhat * v && 0 <= a0 < p
    requires b0 + cc * p == a0 + v && 0 <= b0 < p && cc <= 1
    ensures b0 == x - (qhat - 1) * v && b0 < v && qhat >= 1
  {
    assert (qhat + 1) * v == qhat * v + v && (qhat - 1) * v == qhat * v - v;
    Positive(qhat, v, x);
  }

  lemma NoAddBack(x: int, qhat: int, v: int, a: int)
    requires NearDigit(qhat, x, v) && a == x - qhat * v
    ensures a < v
  {
    assert (qhat + 1) * v == qhat * v + v;
  }

  // ---- the loop body --------------------------------------------------------------------

  // Lines 116-129: u[j..] loses qhat times v, plus one v back when that borrowed.
  method SubtractDigit(u: Nat, v: Nat, qhatv: Nat, j: nat, qhat: Word) returns (q: Word)
    requires InBounds(u) && InBounds(v) && InBounds(qhatv) && qhatv.len == v.len + 1
    requires u.data != v.data && u.data != qhatv.data && v.data != qhatv.data
    requires Divisor(Words(v)) && j + v.len <= u.len
    requires var x := Val(Tail(u, j));
      && NearDigit(qhat, x, Val(Words(v)))
      && (forall k :: u.off + j + v.len < k < u.off + u.len ==> u.data[k] == 0)
      && (j + v.len == u.len ==> qhat <= 1)
    modifies u.data, qhatv.data
    ensures OnlyWithin(u.data, u.off + j, u.off + u.len)
    ensures var x := Val(old(Tail(u, j))); var vv := Val(Words(v));
      && 0 <= Val(Tail(u, j)) < vv && x == q * vv + Val(Tail(u, j))
  {
    hide Scaled, SubsTo, AddsTo, NearDigit, Val, Pow, Divisor;
    var n := v.len;
    ghost var s := Tail(u, j);
    var qhl := DigitProduct(u, v, qhatv, j, qhat);
    ZeroTail(s, qhl);
    assert First(Part(u, j, j + qhl), qhl) == s[..qhl];
    var c := SubVV(Part(u, j, j + qhl), Part(u, j, u.len), qhatv);
    q := AddVBack(u, v, j, qhl, qhat, c, s, First(qhatv, qhl));
  }

  // Lines 116-120: the product and the number of its words that are subtracted
  method DigitProduct(u: Nat, v: Nat, qhatv: Nat, j: nat, qhat: Word) returns (qhl: nat)
    requires InBounds(u) && InBounds(v) && InBounds(qhatv) && qhatv.len == v.len + 1
    requires v.data != qhatv.data && u.data != qhatv.data && Divisor(Words(v)) && j + v.len <= u.len
    requires j + v.len == u.len ==> qhat <= 1
    modifies qhatv.data
    ensures qhl == if j + v.len == u.len then v.len else v.len + 1
    ensures Val(First(qhatv, qhl)) == qhat * Val(Words(v))
  {
    hide Scaled, Val, Pow, Divisor;
    var n := v.len;
    ghost var vs := Words(v);
    var top := MulAddVWW(Part(qhatv, 0, n), v, qhat, 0);
    ghost var low := First(qhatv, n);
    qhatv.data[qhatv.off + n] := top;
    assert First(qhatv, n) == low && First(qhatv, n + 1) == low + [top] && First(v, n) == vs;
    ProductWords(low, top, vs, qhat);
    qhl := qhatv.len;
    if j + qhl > u.len && qhatv.data[qhatv.off + n] == 0 {
      qhl := qhl - 1;
    }
    if j + n == u.len { ShortProduct(low, top, vs, qhat); }
  }

  // The words of u from j on
  function Tail(u: Nat, j: nat): seq<Word>
    requires InBounds(u) && j <= u.len
    reads u.data
  {
    First(Part(u, j, u.len), u.len - j)
  }

  lemma ProductWords(low: seq<Word>, top: Word, vs: seq<Word>, qhat: Word)
    requires Scaled(low, top, vs, qhat, 0)
    ensures Val(low + [top]) == qhat * Val(vs)
    ensures top == 0 ==> Val(low) == qhat * Val(vs)
  {
    hide Val, Pow;
    ValSnoc(low, top);
    assert Val(vs) * qhat == qhat * Val(vs);
  }

  lemma ShortProduct(low: seq<Word>, top: Word, vs: seq<Word>, qhat: Word)
    requires Scaled(low, top, vs, qhat, 0) && qhat <= 1
    ensures top == 0
  {
    ValBound(low);
    ValBound(vs);
    if top > 0 { MulMono(1, top, Pow(|vs|)); }
  }

  method AddVBack(u: Nat, v: Nat, j: nat, qhl: nat, qhat: Word, c: Word, ghost s: seq<Word>, ghost qv: seq<Word>)
    returns (q: Word)
    requires InBounds(u) && InBounds(v) && u.data != v.data && Divisor(Words(v)) && j + v.len <= u.len
    requires qhl == if j + v.len == u.len then v.len else v.len + 1
    requires |s| == u.len - j && |qv| == qhl
    requires Val(s) == Val(s[..qhl]) && NearDigit(qhat, Val(s), Val(Words(v))) && Val(qv) == qhat * Val(Words(v))
    requires c <= 1 && SubsTo(First(Part(u, j, j + qhl), qhl), c, s[..qhl], qv)
    requires forall k :: u.off + j + qhl <= k < u.off + u.len ==> u.data[k] == 0
    modifies u.data
    ensures OnlyWithin(u.data, u.off + j, u.off + u.len)
    ensures var vv := Val(Words(v));
      && 0 <= Val(Tail(u, j)) < vv && Val(s) == q * vv + Val(Tail(u, j))
  {
    hide SubsTo, AddsTo, NearDigit, Val, Pow, Divisor;
    var n := v.len;
    ghost var x, vv := Val(s), Val(Words(v));
    ghost var a := First(Part(u, j, j + qhl), qhl);
    ghost var vs := Words(v);
    DifferenceValue(a, c, s[..qhl], qv);
    q := qhat;
    if c == 0 {
      assert Tail(u, j)[..qhl] == a;
      ZeroTail(Tail(u, j), qhl);
      NoAddBack(x, qhat, vv, Val(a));
      ValBound(a);
    } else {
      ghost var b, cc := PutBack(u, v, j, qhl, a);
      AddedBack(a, b, cc, vs, s, qhat);
      assert forall k :: u.off + j + n <= k < u.off + u.len ==> u.data[k] == 0;
      ZeroTail(Tail(u, j), n);
      q := q - 1;
    }
  }

  // Lines 123-127: v is added to the low n words of the window, the carry to the next word.
  method PutBack(u: Nat, v: Nat, j: nat, qhl: nat, ghost a: seq<Word>) returns (ghost b: seq<Word>, ghost carry: Word)
    requires InBounds(u) && InBounds(v) && u.data != v.data && j + v.len <= u.len
    requires qhl == if j + v.len == u.len then v.len else v.len + 1
    requires a == First(Part(u, j, j + qhl), qhl)
    modifies u.data
    ensures OnlyWithin(u.data, u.off + j, u.off + j + qhl)
    ensures carry <= 1 && AddsTo(b, carry, a[..v.len], Words(v)) && Tail(u, j)[..v.len] == b
    ensures v.len < qhl ==> u.data[u.off + j + v.len] == Add64(a[v.len], carry)
  {
    hide AddsTo, Add64;
    var n := v.len;
    ghost var vs := Words(v);
    assert First(Part(u, j, u.len), n) == a[..n] && First(v, n) == vs;
    var cc := AddVV(Part(u, j, j + n), Part(u, j, u.len), v);
    b, carry := First(Part(u, j, j + n), n), cc;
    if n < qhl {
      assert u.data[u.off + j + n] == a[n];
      u.data[u.off + j + n] := Add64(u.data[u.off + j + n], cc);
    }
    assert Tail(u, j)[..n] == b;
  }

  // a holds x - qhat * v and borrowed; b is its low part after v has been added back.
  lemma AddedBack(a: seq<Word>, b: seq<Word>, cc: Word, vs: seq<Word>, s: seq<Word>, qhat: Word)
    requires Divisor(vs) && |vs| <= |a| <= |vs| + 1 && cc <= 1
    requires Val(a) - Pow(|a|) == Val(s) - qhat * Val(vs)
    requires NearDigit(qhat, Val(s), Val(vs)) && AddsTo(b, cc, a[..|vs|], vs)
    ensures qhat >= 1 && |b| == |vs| && 0 <= Val(b) < Val(vs) && Val(s) == (qhat - 1) * Val(vs) + Val(b)
    ensures |a| > |vs| ==> Add64(a[|vs|], cc) == 0
  {
    hide NearDigit, Val, Pow, Divisor, AddsTo;
    var n := |vs|;
    DivisorSize(vs);
    ValBound(s); ValBound(b); ValBound(a[..n]);
    SumValue(b, cc, a[..n], vs);
    TakeAll(a);
    if |a| > n {
      ValPrefix(a, n);
      NextPow(n);
      AddBack(Val(s), qhat, Val(vs), Pow(n), Val(a[..n]), a[n], Val(b), cc);
    } else {
      AddBackShort(Val(s), qhat, Val(vs), Pow(n), Val(a), Val(b), cc);
    }
  }

  // ---- natDivBasic --------------------------------------------------------------------------

  // Digit j of the quotient: u[j..] becomes its remainder modulo v.
  method DivStep(u: Nat, v: Nat, qhatv: Nat, j: nat, rec: Word) returns (qhat: Word)
    requires InBounds(u) && InBounds(v) && InBounds(qhatv) && qhatv.len == v.len + 1
    requires u.data != v.data && u.data != qhatv.data && v.data != qhatv.data
    requires Divisor(Words(v)) && j + v.len <= u.len
    requires IsReciprocal(rec, Normalised(Words(v)[v.len - 1]))
    requires Val(Tail(u, j)[1..]) < Val(Words(v))
    modifies u.data, qhatv.data
    ensures OnlyWithin(u.data, u.off + j, u.off + u.len)
    ensures var x := Val(old(Tail(u, j))); var vv := Val(Words(v));
      && 0 <= Val(Tail(u, j)) < vv && x == qhat * vv + Val(Tail(u, j))
  {
    hide Val, Pow, Leading, NearDigit, IsReciprocal, Normalised;
    var n := v.len;
    ghost var s, vs := Tail(u, j), Words(v);
    WindowSmall(s, vs);
    LeadingWords(s, vs);
    var ujn: Word := 0;
    if j + n < u.len {
      ujn := u.data[u.off + j + n];
    }
    assert ujn == WordAt(s, n);
    assert u.data[u.off + j + n - 1] == s[n - 1] && u.data[u.off + j + n - 2] == s[n - 2];
    assert v.data[v.off + n - 1] == vs[n - 1] && v.data[v.off + n - 2] == vs[n - 2];
    TailZeros(u, j, n);
    qhat := EstimateDigit(ujn, u.data[u.off + j + n - 1], u.data[u.off + j + n - 2],
                          v.data[v.off + n - 1], v.data[v.off + n - 2], rec, Val(s), Val(vs), Pow(n - 2));
    qhat := SubtractDigit(u, v, qhatv, j, qhat);
  }

  lemma TailZeros(u: Nat, j: nat, n: nat)
    requires InBounds(u) && j <= u.len && forall k :: n < k < u.len - j ==> Tail(u, j)[k] == 0
    ensures forall k :: u.off + j + n < k < u.off + u.len ==> u.data[k] == 0
  {
    forall k | u.off + j + n < k < u.off + u.len ensures u.data[k] == 0 {
      assert u.data[k] == Tail(u, j)[k - u.off - j];
    }
  }

  // x = u0[j..] was divided into the digits qs with remainder r.
  ghost predicate Divided(x: int, qs: seq<Word>, v: int, r: int) {
    x == Val(qs) * v + r
  }

  lemma DigitJoins(s0: seq<Word>, s: seq<Word>, qs: seq<Word>, v: int, q: Word, r: int)
    requires |s| == |s0| > 0 && s[0] == s0[0]
    requires Divided(Val(s0[1..]), qs, v, Val(s[1..])) && Val(s) == q * v + r
    ensures Divided(Val(s0), [q] + qs, v, r)
  {
    hide Val;
    ValCons(s0);
    ValCons(s);
    ConsValue(q, qs);
    JoinDigit(s0[0], Val(s0[1..]), Val(s[1..]), Val(qs), v, q, r);
  }

  lemma ConsValue(q: Word, qs: seq<Word>)
    ensures Val([q] + qs) == q + W * Val(qs)
  {
    hide Val;
    ValCons([q] + qs);
    assert ([q] + qs)[1..] == qs;
  }

  lemma JoinDigit(w: int, x: int, t: int, qv: int, v: int, q: int, r: int)
    requires x == qv * v + t && w + W * t == q * v + r
    ensures w + W * x == (q + W * qv) * v + r
  {
    assert (q + W * qv) * v == q * v + W * (qv * v);
  }

  lemma ZeroDigit(s0: seq<Word>, v: int, r: int)
    ensures Divided(Val(s0), [0], v, r) <==> Divided(Val(s0), [], v, r)
  {
    ValOne([0]);
    ValEmpty([]);
  }

  lemma FitsNone(x: int, q: Word, v: int, r: int)
    requires x == q * v + r && x < v && 0 <= r < v
    ensures q == 0
  {
    if q > 0 { MulMono(1, q, v); }
  }

  lemma DivisorLast(vs: seq<Word>)
    requires Divisor(vs)
    ensures |vs| >= 2 && vs[|vs| - 1] >= TOP
  {}

  lemma NoDigits(u0: seq<Word>, vs: seq<Word>, none: seq<Word>)
    requires Divisor(vs) && |u0| < |vs| && |none| == 0
    ensures 0 <= Val(u0) < Val(vs) && Divided(Val(u0), none, Val(vs), Val(u0))
  {
    DivisorSize(vs);
    ValBound(u0);
    PowMono(|u0|, |vs| - 1);
    hide Val, Pow;
    StartDivided(Val(u0), none, Val(vs));
  }

  lemma StartDivided(x: int, none: seq<Word>, v: int)
    requires |none| == 0
    ensures Divided(x, none, v, x)
  {}

  lemma TopSmall(t: seq<Word>, vs: seq<Word>)
    requires Divisor(vs) && |t| < |vs|
    ensures 0 <= Val(t) < Val(vs)
  {
    DivisorSize(vs);
    ValBound(t);
    PowMono(|t|, |vs| - 1);
  }

  // The words of the quotient view from lo up to len, none when lo has passed len
  function DigitsFrom(q: Nat, lo: nat, len: nat): seq<Word>
    requires InBounds(q) && len <= q.len
    reads q.data
  {
    if lo <= len then First(Part(q, lo, len), len - lo) else []
  }

  // One more digit than the length difference, unless q has no room for the top one
  function QuotientLen(q: Nat, u: Nat, v: Nat): (len: nat)
    ensures len <= q.len
  {
    if u.len < v.len then 0 else Min(q.len, u.len - v.len + 1)
  }

  // The operands of the digit loop: separate arrays, a divisor and its reciprocal word
  ghost predicate Ready(q: Nat, u: Nat, v: Nat, qhatv: Nat, rec: Word)
    requires InBounds(v)
    reads v.data
  {
    && InBounds(qhatv) && qhatv.len == v.len + 1
    && u.data != v.data && u.data != qhatv.data && v.data != qhatv.data
    && q.data != u.data && q.data != v.data && q.data != qhatv.data
    && Divisor(Words(v)) && IsReciprocal(rec, Normalised(Words(v)[v.len - 1]))
  }

  // Before digit j - 1: the digits from j on divide u0[j..], leaving a remainder below v in u[j..].
  ghost predicate Progress(q: Nat, u: Nat, v: Nat, j: nat, u0: seq<Word>)
    requires InBounds(q) && InBounds(u) && InBounds(v)
    reads q.data, u.data, v.data
  {
    && j <= u.len == |u0| && v.len <= u.len && j <= u.len - v.len + 1 <= q.len + 1
    && First(u, j) == u0[..j]
    && 0 <= Val(Tail(u, j)) < Val(Words(v))
    && Divided(Val(u0[j..]), DigitsFrom(q, j, QuotientLen(q, u, v)), Val(Words(v)), Val(Tail(u, j)))
    && (j == u.len - v.len + 1 == q.len + 1 ==> Val(Tail(u, q.len)) < Val(Words(v)))
  }

  // One round of the loop: digit j is computed and stored, unless q has no word for it.
  method NextDigit(q: Nat, u: Nat, v: Nat, qhatv: Nat, j: nat, rec: Word, ghost u0: seq<Word>)
    requires InBounds(q) && InBounds(u) && InBounds(v) && Ready(q, u, v, qhatv, rec)
    requires Progress(q, u, v, j + 1, u0)
    modifies q.data, u.data, qhatv.data
    ensures OnlyWithin(q.data, q.off + j, q.off + QuotientLen(q, u, v))
    ensures OnlyWithin(u.data, u.off + j, u.off + u.len)
    ensures Ready(q, u, v, qhatv, rec) && Progress(q, u, v, j, u0)
  {
    hide Val, Pow, Divided, IsReciprocal, Normalised, Divisor;
    ghost var vs, len, s := Words(v), QuotientLen(q, u, v), Tail(u, j);
    ghost var qs := DigitsFrom(q, j + 1, len);
    assert s[1..] == Tail(u, j + 1);
    assert s[0] == First(u, j + 1)[j] == u0[j] && u0[j..][1..] == u0[j + 1..];
    assert First(u, j) == u0[..j];
    var qhat := DivStep(u, v, qhatv, j, rec);
    ghost var r := Tail(u, j);
    DigitJoins(u0[j..], s, qs, Val(vs), qhat, Val(r));
    StoreDigit(q, u, v, j, qhat, s, r, qs, u0);
  }

  // The end of the loop body: q[j] is stored unless it would be the missing top word.
  method StoreDigit(q: Nat, u: Nat, v: Nat, j: nat, qhat: Word,
                    ghost s: seq<Word>, ghost r: seq<Word>, ghost qs: seq<Word>, ghost u0: seq<Word>)
    requires InBounds(q) && InBounds(u) && InBounds(v) && q.data != u.data && q.data != v.data
    requires j < |u0| && |u0| == u.len && v.len <= u.len && j <= u.len - v.len <= q.len
    requires qs == DigitsFrom(q, j + 1, QuotientLen(q, u, v))
    requires 0 <= Val(r) < Val(Words(v)) && Val(s) == qhat * Val(Words(v)) + Val(r)
    requires j == u.len - v.len == q.len ==> Val(s) < Val(Words(v))
    requires Divided(Val(u0[j..]), [qhat] + qs, Val(Words(v)), Val(r))
    modifies q.data
    ensures OnlyWithin(q.data, q.off + j, q.off + QuotientLen(q, u, v))
    ensures Divided(Val(u0[j..]), DigitsFrom(q, j, QuotientLen(q, u, v)), Val(Words(v)), Val(r))
  {
    hide Val, Pow, Divided;
    ghost var len, vv := QuotientLen(q, u, v), Val(Words(v));
    if j == u.len - v.len == q.len {
      FitsNone(Val(s), qhat, vv, Val(r));
      ZeroDigit(u0[j..], vv, Val(r));
      assert [qhat] + qs == [0];
    }
    if !(j == u.len - v.len && j == q.len && qhat == 0) {
      q.data[q.off + j] := qhat;
      assert DigitsFrom(q, j, len) == [qhat] + qs;
    }
  }

  // u and v are views of different arrays; v has at least two words and its top bit set.
  // q needs a word for every digit that can be nonzero.
  method NatDivBasic(q: Nat, u: Nat, v: Nat)
    requires InBounds(q) && InBounds(u) && InBounds(v)
    requires u.data != v.data && q.data != u.data && q.data != v.data
    requires Divisor(Words(v))
    requires u.len >= v.len ==> u.len - v.len <= q.len
    requires q.len + v.len == u.len ==> Val(Tail(u, q.len)) < Val(Words(v))
    modifies q.data, u.data
    ensures OnlyWithin(q.data, q.off, q.off + QuotientLen(q, u, v))
    ensures OnlyWithin(u.data, u.off, u.off + u.len)
    ensures 0 <= Val(Words(u)) < Val(Words(v))
    ensures Divided(Val(old(Words(u))), First(q, QuotientLen(q, u, v)), Val(Words(v)), Val(Words(u)))
  {
    hide Val, Pow, Divided, IsReciprocal, Normalised, Divisor;
    ghost var vs := Words(v);
    DivisorLast(vs);
    var qhatv := NewLen(v.len + 1);
    var rec := ReciprocalWord(v.data[v.off + v.len - 1]);
    if u.len < v.len {
      NoDigits(Words(u), vs, First(q, 0));
      return;
    }
    ghost var u0 := Words(u);
    DigitLoop(q, u, v, qhatv, rec);
    ProgressEnd(q, u, v, u0);
  }

  method DigitLoop(q: Nat, u: Nat, v: Nat, qhatv: Nat, rec: Word)
    requires InBounds(q) && InBounds(u) && InBounds(v) && Ready(q, u, v, qhatv, rec)
    requires v.len <= u.len && u.len - v.len <= q.len
    requires q.len + v.len == u.len ==> Val(Tail(u, q.len)) < Val(Words(v))
    modifies q.data, u.data, qhatv.data
    ensures OnlyWithin(q.data, q.off, q.off + QuotientLen(q, u, v))
    ensures OnlyWithin(u.data, u.off, u.off + u.len)
    ensures Progress(q, u, v, 0, old(Words(u)))
  {
    var j := u.len - v.len + 1;
    ghost var u0 := Words(u);
    ProgressStart(q, u, v, u0);
    hide Progress, Ready;
    while j > 0
      invariant 0 <= j <= u.len - v.len + 1
      invariant Ready(q, u, v, qhatv, rec) && Progress(q, u, v, j, u0)
      invariant OnlyWithin(q.data, q.off, q.off + QuotientLen(q, u, v))
      invariant OnlyWithin(u.data, u.off, u.off + u.len)
    {
      NextDigit(q, u, v, qhatv, j - 1, rec, u0);
      j := j - 1;
    }
  }

  lemma ProgressStart(q: Nat, u: Nat, v: Nat, u0: seq<Word>)
    requires InBounds(q) && InBounds(u) && InBounds(v) && Divisor(Words(v)) && u0 == Words(u)
    requires v.len <= u.len && u.len - v.len <= q.len
    requires q.len + v.len == u.len ==> Val(Tail(u, q.len)) < Val(Words(v))
    ensures Progress(q, u, v, u.len - v.len + 1, u0)
  {
    var j := u.len - v.len + 1;
    TopSmall(Tail(u, j), Words(v));
    hide Val, Pow, Divided;
    assert u0[j..] == Tail(u, j);
    StartDivided(Val(Tail(u, j)), DigitsFrom(q, j, QuotientLen(q, u, v)), Val(Words(v)));
  }

  lemma ProgressEnd(q: Nat, u: Nat, v: Nat, u0: seq<Word>)
    requires InBounds(q) && InBounds(u) && InBounds(v) && Progress(q, u, v, 0, u0)
    ensures 0 <= Val(Words(u)) < Val(Words(v))
    ensures Divided(Val(u0), First(q, QuotientLen(q, u, v)), Val(Words(v)), Val(Words(u)))
  {
    hide Val, Pow, Divided;
    assert u0[0..] == u0 && Tail(u, 0) == Words(u);
  }
}
