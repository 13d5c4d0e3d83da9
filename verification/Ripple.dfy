/** The carry that leaves the low words of a sum and goes on into the high ones, as karatsubaAdd,
    karatsubaSub and addAt of cmake/bigint/src/natmul.c do it: with addVW and subVW as they are written,
    which count a carry twice, and with the repaired ones. */
module Ripples {
  import opened Bits
  import opened Base
  import opened Nats
  import opened NatAddSub

  // Which addVW and subVW: the code's own, or the ones that count a carry once
  datatype Ripple = AsWritten | Repaired

  // ---- one carry into a number of h words -----------------------------------------------------

  // What addVW as written leaves of v, with c as addend and oc as carry-in
  function RippleUp(v: int, h: nat, c: int, oc: int): (r: int)
    requires 0 <= c <= 1 && 0 <= oc <= 1
    decreases h
  {
    if h == 0 then 0
    else
      var s := v % W + c + oc;
      var d := if s < W then 0 else 1;
      s - d * W + W * RippleUp(v / W, h - 1, d, d)
  }

  // What subVW as written leaves of v
  function RippleDown(v: int, h: nat, c: int, oc: int): (r: int)
    requires 0 <= c <= 1 && 0 <= oc <= 1
    decreases h
  {
    if h == 0 then 0
    else
      var s := v % W - c - oc;
      var d := if s < 0 then 1 else 0;
      s + d * W + W * RippleDown(v / W, h - 1, d, d)
  }

  lemma {:induction false} RippleUpRange(v: int, h: nat, c: int, oc: int)
    requires 0 <= c <= 1 && 0 <= oc <= 1
    ensures 0 <= RippleUp(v, h, c, oc) < Pow(h)
    decreases h
  {
    if h > 0 {
      var d := if v % W + c + oc < W then 0 else 1;
      RippleUpRange(v / W, h - 1, d, d);
    }
  }

  lemma LowDigit(d: int, v: int)
    requires 0 <= d < W
    ensures (d + W * v) % W == d && (d + W * v) / W == v
  {}

  // A subtraction as written undoes an addition as written, doubled carries and all.
  lemma {:induction false} DownAfterUp(v: int, h: nat, c: int, oc: int)
    requires 0 <= c <= 1 && 0 <= oc <= 1 && 0 <= v < Pow(h)
    ensures RippleDown(RippleUp(v, h, c, oc), h, c, oc) == v
    decreases h
  {
    if h > 0 {
      var s := v % W + c + oc;
      var d := if s < W then 0 else 1;
      var r := RippleUp(v / W, h - 1, d, d);
      assert RippleUp(v, h, c, oc) == s - d * W + W * r;
      LowDigit(s - d * W, r);
      NextPow(h - 1);
      DownAfterUp(v / W, h - 1, d, d);
      hide RippleUp, Pow;
      DownStep(s - d * W + W * r, h, c, oc, v % W, d, r);
    } else {
      PowZero();
    }
  }

  lemma DownStep(u: int, h: nat, c: int, oc: int, a: int, d: int, r: int)
    requires 0 <= c <= 1 && 0 <= oc <= 1 && h > 0 && 0 <= a < W && u / W == r && u % W == a + c + oc - d * W
    requires d == if a + c + oc < W then 0 else 1
    ensures RippleDown(u, h, c, oc) == a + W * RippleDown(r, h - 1, d, d)
  {}

  lemma {:induction false} RippleNothing(v: int, h: nat)
    requires 0 <= v < Pow(h)
    ensures RippleUp(v, h, 0, 0) == v
    decreases h
  {
    if h > 0 {
      NextPow(h - 1);
      RippleNothing(v / W, h - 1);
    } else {
      PowZero();
    }
  }

  // A carry that stays in word 0 is added once.
  lemma StaysInWord(v: int, h: nat)
    requires 0 <= v < Pow(h) && v % W < W - 1 && h > 0
    ensures RippleUp(v, h, 1, 0) == v + 1 && v + 1 < Pow(h)
  {
    NextPow(h - 1);
    RippleNothing(v / W, h - 1);
    RippleUpRange(v, h, 1, 0);
  }

  // One that leaves it is not, if there are words above.
  lemma LeavesWord(v: int, h: nat)
    requires v % W == W - 1 && h > 1
    ensures RippleUp(v, h, 1, 0) != v + 1 && RippleUp(v, h, 1, 0) % W == 0
  {
    var r := RippleUp(v / W, h - 1, 1, 1);
    assert RippleUp(v, h, 1, 0) == W * r;
    TwoNotOne(v / W, h - 1);
    hide RippleUp;
    AllLow(v, r);
  }

  lemma AllLow(v: int, r: int)
    requires v % W == W - 1
    ensures v + 1 == W * (v / W + 1) && W * r % W == 0
  {
    LowDigit(0, r);
  }

  lemma TwoNotOne(v: int, h: nat)
    requires h > 0
    ensures RippleUp(v, h, 1, 1) != v + 1
  {
    var s := v % W + 2;
    var d := if s < W then 0 else 1;
    LowDigit(s - d * W, RippleUp(v / W, h - 1, d, d));
  }

  lemma BorrowLeavesWord(v: int, h: nat)
    requires v % W == 0 && h > 1
    ensures RippleDown(v, h, 1, 0) != v - 1
  {
    var s := v / W % W - 2;
    var d := if s < 0 then 1 else 0;
    LowDigit(s + d * W, RippleDown(v / W / W, h - 2, d, d));
    assert RippleDown(v / W, h - 1, 1, 1) % W == s + d * W;
    assert RippleDown(v, h, 1, 0) == W - 1 + W * RippleDown(v / W, h - 1, 1, 1);
    NotLess(v / W, RippleDown(v / W, h - 1, 1, 1));
  }

  lemma NotLess(v: int, r: int)
    requires var s := v % W - 2; r % W == s + (if s < 0 then W else 0)
    ensures r != v - 1
  {}

  // v after a carry c, and after a borrow
  function Carried(how: Ripple, v: int, h: nat, c: int): int
    requires 0 <= c <= 1
  {
    if c == 0 then v else if how.Repaired? then (v + 1) % Pow(h) else RippleUp(v, h, 1, 0)
  }

  function Borrowed(how: Ripple, v: int, h: nat, c: int): int
    requires 0 <= c <= 1
  {
    if c == 0 then v else if how.Repaired? then (v - 1) % Pow(h) else RippleDown(v, h, 1, 0)
  }

  lemma CarriedRange(how: Ripple, v: int, h: nat, c: int)
    requires 0 <= c <= 1 && 0 <= v < Pow(h)
    ensures 0 <= Carried(how, v, h, c) < Pow(h)
  {
    RippleUpRange(v, h, 1, 0);
    DivModUnique(v + 1, Pow(h), (v + 1) / Pow(h), (v + 1) % Pow(h));
  }

  lemma BorrowUndoes(how: Ripple, v: int, h: nat)
    requires 0 <= v < Pow(h)
    ensures Borrowed(how, Carried(how, v, h, 1), h, 1) == v
  {
    var p := Pow(h);
    DownAfterUp(v, h, 1, 0);
    if v + 1 < p {
      DivModUnique(v + 1, p, 0, v + 1);
      DivModUnique(v, p, 0, v);
    } else {
      DivModUnique(v + 1, p, 1, 0);
      DivModUnique(-1, p, -1, p - 1);
    }
  }

  // v after k carries, one after the other
  function Times(how: Ripple, v: int, h: nat, k: nat): int {
    if k == 0 then v else Carried(how, Times(how, v, h, k - 1), h, 1)
  }

  lemma {:induction false} TimesRange(how: Ripple, v: int, h: nat, k: nat)
    requires 0 <= v < Pow(h)
    ensures 0 <= Times(how, v, h, k) < Pow(h)
  {
    if k > 0 {
      TimesRange(how, v, h, k - 1);
      CarriedRange(how, Times(how, v, h, k - 1), h, 1);
    }
  }

  lemma {:induction false} RepairedTimes(v: int, h: nat, k: nat)
    requires 0 <= v && v + k < Pow(h)
    ensures Times(Repaired, v, h, k) == v + k
  {
    hide Pow;
    if k > 0 {
      RepairedTimes(v, h, k - 1);
      BelowModulus(v + k, Pow(h));
    }
  }

  lemma BelowModulus(v: int, p: int)
    requires 0 <= v < p
    ensures v % p == v
  {
    DivModUnique(v, p, 0, v);
  }

  lemma {:induction false} TimesInWord(v: int, h: nat, k: nat)
    requires 0 <= v < Pow(h) && v % W + k < W && (h > 0 || k == 0)
    ensures Times(AsWritten, v, h, k) == v + k && v + k < Pow(h)
  {
    if k > 0 {
      TimesInWord(v, h, k - 1);
      WordStep(v, k - 1);
      StaysInWord(v + k - 1, h);
    }
  }

  lemma WordStep(v: int, k: nat)
    requires v % W + k < W
    ensures (v + k) % W == v % W + k
  {}

  // Once word 0 has overflowed the result stays wrong.
  lemma {:induction false} StaysWrong(v: int, h: nat, k: nat)
    requires 0 <= v < Pow(h) && h > 1 && W <= v % W + k && k < W
    ensures Times(AsWritten, v, h, k) != v + k && Times(AsWritten, v, h, k) % W == v % W + k - W
  {
    TimesRange(AsWritten, v, h, k - 1);
    var t := Times(AsWritten, v, h, k - 1);
    if v % W + k == W {
      TimesInWord(v, h, k - 1);
      WordStep(v, k - 1);
      LeavesWord(t, h);
    } else {
      StaysWrong(v, h, k - 1);
      StaysInWord(t, h);
      WordStep(t, 1);
    }
  }

  lemma OneWordFits(v: int, h: nat, k: nat)
    requires h <= 1 && 0 <= v && v + k < Pow(h)
    ensures v % W + k < W && (h == 0 ==> k == 0)
  {
    PowZero();
    NextPow(0);
  }

  // So k carries into v are exact if and only if word 0 of v has room for them.
  lemma TimesExact(how: Ripple, v: int, h: nat, k: nat)
    requires 0 <= v && v + k < Pow(h) && k < W
    ensures Times(how, v, h, k) == v + k <==> how.Repaired? || v % W + k < W
  {
    if h <= 1 { OneWordFits(v, h, k); }
    match how
    case Repaired => RepairedTimes(v, h, k);
    case AsWritten =>
      if v % W + k < W { TimesInWord(v, h, k); } else { StaysWrong(v, h, k); }
  }

  // ---- sums and differences of a long and a short number --------------------------------------

  // z of n + t words and x of n words: the sum of the low words, and its carry into the t high ones
  function Added(how: Ripple, z: int, x: int, n: nat, t: nat): int {
    var p := Pow(n);
    var s := z % p + x;
    var c := if s < p then 0 else 1;
    s - c * p + p * Carried(how, z / p, t, c)
  }

  function Subtracted(how: Ripple, z: int, x: int, n: nat, t: nat): int {
    var p := Pow(n);
    var s := z % p - x;
    var c := if s < 0 then 1 else 0;
    s + c * p + p * Borrowed(how, z / p, t, c)
  }

  // Low and high part of z after a run of additions: the low part is that of the true value v, the
  // high part has been carried into as often as v says.
  ghost predicate RunsTo(how: Ripple, z: int, v: int, u: int, n: nat, t: nat) {
    var p := Pow(n);
    v / p >= u && z == v % p + p * Times(how, u, t, v / p - u)
  }

  lemma RunStart(how: Ripple, v: int, n: nat, t: nat)
    ensures RunsTo(how, v, v, v / Pow(n), n, t)
  {
    DivModUnique(v, Pow(n), v / Pow(n), v % Pow(n));
  }

  lemma RunAdd(how: Ripple, z: int, v: int, u: int, x: int, n: nat, t: nat)
    requires RunsTo(how, z, v, u, n, t) && 0 <= x < Pow(n)
    ensures RunsTo(how, Added(how, z, x, n, t), v + x, u, n, t)
  {
    var p := Pow(n);
    var k := v / p - u;
    var s := v % p + x;
    var c := if s < p then 0 else 1;
    LowHigh(z, p, v % p, Times(how, u, t, k));
    CarryInto(v, x, p, c);
    assert Times(how, u, t, k + 1) == Carried(how, Times(how, u, t, k), t, 1);
  }

  lemma RunSubtract(how: Ripple, z: int, v: int, u: int, x: int, n: nat, t: nat)
    requires RunsTo(how, z, v, u, n, t) && 0 <= x < Pow(n) && (v - x) / Pow(n) >= u && 0 <= u < Pow(t)
    ensures RunsTo(how, Subtracted(how, z, x, n, t), v - x, u, n, t)
  {
    var p := Pow(n);
    var k := v / p - u;
    var s := v % p - x;
    var c := if s < 0 then 1 else 0;
    LowHigh(z, p, v % p, Times(how, u, t, k));
    BorrowFrom(v, x, p, c);
    if c == 1 {
      TimesRange(how, u, t, k - 1);
      BorrowUndoes(how, Times(how, u, t, k - 1), t);
    }
  }

  lemma LowHigh(z: int, p: int, low: int, high: int)
    requires p > 0 && 0 <= low < p && z == low + p * high
    ensures z % p == low && z / p == high
  {
    assert p * high == high * p;
    DivModUnique(z, p, high, low);
  }

  lemma CarryInto(v: int, x: int, p: int, c: int)
    requires p > 0 && 0 <= x < p && c == if v % p + x < p then 0 else 1
    ensures (v + x) / p == v / p + c && (v + x) % p == v % p + x - c * p
  {
    assert (v / p + c) * p == v / p * p + c * p;
    DivModUnique(v + x, p, v / p + c, v % p + x - c * p);
  }

  lemma BorrowFrom(v: int, x: int, p: int, c: int)
    requires p > 0 && 0 <= x < p && c == if v % p - x < 0 then 1 else 0
    ensures (v - x) / p == v / p - c && (v - x) % p == v % p - x + c * p
  {
    assert (v / p - c) * p == v / p * p - c * p;
    DivModUnique(v - x, p, v / p - c, v % p - x + c * p);
  }

  // The value a run of additions and subtractions leaves is the true one if and only if word 0
  // of the high part has room for all carries that remain.
  lemma RunExact(how: Ripple, z: int, v: int, u: int, n: nat, t: nat)
    requires RunsTo(how, z, v, u, n, t) && 0 <= u && v / Pow(n) < Pow(t) && v / Pow(n) - u < W
    ensures z == v <==> how.Repaired? || u % W + (v / Pow(n) - u) < W
  {
    hide Times;
    var k := v / Pow(n) - u;
    TimesExact(how, u, t, k);
    Split(v, Pow(n));
    SameMultiple(Pow(n), Times(how, u, t, k), v / Pow(n), v % Pow(n));
  }

  // So after exact additions a subtraction as written is exact as well.
  lemma SubtractionFollows(z: int, v: int, u: int, x: int, n: nat, t: nat)
    requires RunsTo(AsWritten, z, v, u, n, t) && z == v && 0 <= x < Pow(n) && (v - x) / Pow(n) >= u && 0 <= u
    requires v / Pow(n) < Pow(t) && v / Pow(n) - u < W
    ensures Subtracted(AsWritten, z, x, n, t) == v - x
  {
    var z' := Subtracted(AsWritten, z, x, n, t);
    DivOrder(v - x, v, Pow(n));
    hide Subtracted, Pow;
    RunExact(AsWritten, z, v, u, n, t);
    RunSubtract(AsWritten, z, v, u, x, n, t);
    hide RunsTo;
    RunExact(AsWritten, z', v - x, u, n, t);
  }

  lemma DivOrder(a: int, b: int, p: int)
    requires p > 0 && a <= b
    ensures a / p <= b / p
  {
    DivBounds(a, p);
    DivBounds(b, p);
    CancelLt(a / p, b / p + 1, p);
  }

  lemma Split(v: int, p: int)
    requires p > 0
    ensures v == v % p + p * (v / p) && 0 <= v % p < p
  {}

  lemma SameMultiple(p: int, a: int, b: int, low: int)
    requires p > 0
    ensures low + p * a == low + p * b <==> a == b
  {
    assert p * a == a * p && p * b == b * p;
    if a < b { MulLess(a, b, p); }
    if b < a { MulLess(b, a, p); }
  }

  lemma MulLess(a: int, b: int, p: int)
    requires a < b && p > 0
    ensures a * p < b * p
  {
    MulMono(a + 1, b, p);
    assert (a + 1) * p == a * p + p;
  }

  // ---- when the stored words are right -------------------------------------------------------

  // No carry of the low words, or none out of the next word, or that word is the last one
  ghost predicate SumExact(zs: seq<Word>, xs: seq<Word>)
    requires |xs| <= |zs|
  {
    |xs| == 0 || |zs| - |xs| <= 1 || LowCarry(zs, xs) == 0 || zs[|xs|] != W - 1
  }

  ghost predicate DifferenceExact(zs: seq<Word>, xs: seq<Word>)
    requires |xs| <= |zs|
  {
    |xs| == 0 || |zs| - |xs| <= 1 || LowBorrow(zs, xs) == 0 || zs[|xs|] != 0
  }

  // The carries counted twice amount to less than one carry out of all words.
  lemma {:induction false} CarryExcessBelow(xs: seq<Word>, c: Word, oc: Word)
    requires oc <= 1 && |xs| > 0
    ensures (W - 1) * CarryExcess(xs, c, oc) + W <= Pow(|xs|)
  {
    hide U64Add;
    NextPow(|xs| - 1);
    if |xs| == 1 {
      PowZero();
    } else {
      var d := U64Add(xs[0], c, oc);
      CarryExcessBelow(xs[1..], d.1, d.1);
      ghost var e := CarryExcess(xs[1..], d.1, d.1);
      assert CarryExcess(xs, c, oc) == W * (d.1 + e);
      hide Pow, CarryExcess;
      ExcessStep(d.1, e, Pow(|xs| - 1));
    }
  }

  lemma {:induction false} BorrowExcessBelow(xs: seq<Word>, c: Word, oc: Word)
    requires oc <= 1 && |xs| > 0
    ensures (W - 1) * BorrowExcess(xs, c, oc) + W <= Pow(|xs|)
  {
    hide U64Sub;
    NextPow(|xs| - 1);
    if |xs| == 1 {
      PowZero();
    } else {
      var d := U64Sub(xs[0], c, oc);
      BorrowExcessBelow(xs[1..], d.1, d.1);
      ghost var e := BorrowExcess(xs[1..], d.1, d.1);
      assert BorrowExcess(xs, c, oc) == W * (d.1 + e);
      hide Pow, BorrowExcess;
      ExcessStep(d.1, e, Pow(|xs| - 1));
    }
  }

  lemma ExcessStep(d: int, e: int, p: int)
    requires d <= 1 && (W - 1) * e + W <= p
    ensures (W - 1) * (W * (d + e)) + W <= W * p
  {}

  // So the errors stay below W^|zs|: dropping the last carry does not make up for them.
  lemma AddErrorBelow(zs: seq<Word>, xs: seq<Word>)
    requires |xs| <= |zs|
    ensures 0 <= AddError(zs, xs) < Pow(|zs|)
  {
    hide *;
    AddErrorZero(zs, xs);
    AddErrorIs(zs, xs);
    if 0 < |xs| < |zs| {
      var n := |xs|;
      PowAdd(n, |zs| - n);
      CarryExcessBelow(zs[n..], LowCarry(zs, xs), 0);
      BelowTimes(CarryExcess(zs[n..], LowCarry(zs, xs), 0), Pow(n), Pow(|zs| - n));
    }
  }

  lemma AddErrorIs(zs: seq<Word>, xs: seq<Word>)
    requires |xs| <= |zs|
    ensures 0 < |xs| < |zs| ==> AddError(zs, xs) == Pow(|xs|) * CarryExcess(zs[|xs|..], LowCarry(zs, xs), 0)
    ensures |xs| == 0 || |xs| == |zs| ==> AddError(zs, xs) == 0
  {
    hide Pow, LowCarry;
    if |xs| == |zs| { NoExcess(zs[|xs|..], LowCarry(zs, xs)); }
  }

  lemma SubErrorBelow(zs: seq<Word>, xs: seq<Word>)
    requires |xs| <= |zs|
    ensures 0 <= SubError(zs, xs) < Pow(|zs|)
  {
    hide *;
    SubErrorZero(zs, xs);
    SubErrorIs(zs, xs);
    if 0 < |xs| < |zs| {
      var n := |xs|;
      PowAdd(n, |zs| - n);
      BorrowExcessBelow(zs[n..], LowBorrow(zs, xs), 0);
      BelowTimes(BorrowExcess(zs[n..], LowBorrow(zs, xs), 0), Pow(n), Pow(|zs| - n));
    }
  }

  lemma SubErrorIs(zs: seq<Word>, xs: seq<Word>)
    requires |xs| <= |zs|
    ensures 0 < |xs| < |zs| ==> SubError(zs, xs) == Pow(|xs|) * BorrowExcess(zs[|xs|..], LowBorrow(zs, xs), 0)
    ensures |xs| == 0 || |xs| == |zs| ==> SubError(zs, xs) == 0
  {
    hide Pow, LowBorrow;
    if |xs| == |zs| { NoExcess(zs[|xs|..], LowBorrow(zs, xs)); }
  }

  lemma BelowTimes(e: int, p: int, q: int)
    requires e >= 0 && p > 0 && (W - 1) * e + W <= q
    ensures p * e < p * q
  {
    MulMono(e + 1, q, p);
    assert (e + 1) * p == p * e + p && q * p == p * q;
  }

  // By how much the stored words are off
  ghost function SumError(how: Ripple, zs: seq<Word>, xs: seq<Word>): int
    requires |xs| <= |zs|
  {
    if how.Repaired? then 0 else AddError(zs, xs)
  }

  ghost function DifferenceError(how: Ripple, zs: seq<Word>, xs: seq<Word>): int
    requires |xs| <= |zs|
  {
    if how.Repaired? then 0 else SubError(zs, xs)
  }

  lemma SumStored(how: Ripple, stored: seq<Word>, c: Word, zs: seq<Word>, xs: seq<Word>)
    requires |xs| <= |zs| == |stored| && Val(zs) + Val(xs) < Pow(|zs|)
    requires Val(stored) + c * Pow(|zs|) == Val(zs) + Val(xs) + SumError(how, zs, xs)
    ensures Val(stored) == Val(zs) + Val(xs) <==> how.Repaired? || SumExact(zs, xs)
  {
    hide Val, Pow, AddError, LowCarry;
    AddErrorZero(zs, xs);
    AddErrorBelow(zs, xs);
    ValBound(stored);
    ValBound(zs);
    ValBound(xs);
    SumWithCarry(Val(stored), c, Val(zs) + Val(xs), SumError(how, zs, xs), Pow(|zs|));
  }

  lemma DifferenceStored(how: Ripple, stored: seq<Word>, c: Word, zs: seq<Word>, xs: seq<Word>)
    requires |xs| <= |zs| == |stored| && Val(xs) <= Val(zs)
    requires Val(stored) - c * Pow(|zs|) == Val(zs) - Val(xs) - DifferenceError(how, zs, xs)
    ensures Val(stored) == Val(zs) - Val(xs) <==> how.Repaired? || DifferenceExact(zs, xs)
  {
    hide Val, Pow, SubError, LowBorrow;
    SubErrorZero(zs, xs);
    SubErrorBelow(zs, xs);
    ValBound(stored);
    DifferenceWithBorrow(Val(stored), c, Val(zs) - Val(xs), DifferenceError(how, zs, xs), Pow(|zs|));
  }

  lemma SumWithCarry(v: int, c: int, sum: int, e: int, p: int)
    requires 0 <= v < p && 0 <= sum < p && 0 <= e < p && c >= 0 && v + c * p == sum + e
    ensures v == sum <==> e == 0
  {
    if c > 0 { MulMono(1, c, p); }
  }

  lemma DifferenceWithBorrow(v: int, c: int, d: int, e: int, p: int)
    requires 0 <= v < p && d >= 0 && 0 <= e < p && c >= 0 && v - c * p == d - e
    ensures v == d <==> e == 0
  {
    if c > 0 { MulMono(1, c, p); }
  }

  // ---- the words behind those values ----------------------------------------------------------

  lemma {:induction false} RippleUpIs(xs: seq<Word>, c: Word, oc: Word)
    requires c <= 1 && oc <= 1
    ensures Val(CarryRipple(xs, c, oc).0) == RippleUp(Val(xs), |xs|, c, oc)
  {
    if |xs| > 0 {
      var d := U64Add(xs[0], c, oc);
      var r := CarryRipple(xs, c, oc).0;
      assert r[0] == d.0 && r[1..] == CarryRipple(xs[1..], d.1, d.1).0;
      RippleUpIs(xs[1..], d.1, d.1);
      ValCons(xs);
      ValCons(r);
      hide *;
      UpDigit(Val(xs), |xs|, c, oc, xs[0], Val(xs[1..]), d.0, d.1);
    }
  }

  lemma UpDigit(v: int, h: nat, c: int, oc: int, a: Word, rest: int, r: Word, d: int)
    requires 0 <= c <= 1 && 0 <= oc <= 1 && h > 0 && v == a + W * rest && r + W * d == a + c + oc && 0 <= d <= 1
    ensures RippleUp(v, h, c, oc) == r + W * RippleUp(rest, h - 1, d, d)
  {
    LowDigit(a, rest);
  }

  lemma {:induction false} RippleDownIs(xs: seq<Word>, c: Word, oc: Word)
    requires c <= 1 && oc <= 1
    ensures Val(BorrowRipple(xs, c, oc).0) == RippleDown(Val(xs), |xs|, c, oc)
  {
    if |xs| > 0 {
      var d := U64Sub(xs[0], c, oc);
      var r := BorrowRipple(xs, c, oc).0;
      assert r[0] == d.0 && r[1..] == BorrowRipple(xs[1..], d.1, d.1).0;
      RippleDownIs(xs[1..], d.1, d.1);
      ValCons(xs);
      ValCons(r);
      hide *;
      DownDigit(Val(xs), |xs|, c, oc, xs[0], Val(xs[1..]), d.0, d.1);
    }
  }

  lemma DownDigit(v: int, h: nat, c: int, oc: int, a: Word, rest: int, r: Word, d: int)
    requires 0 <= c <= 1 && 0 <= oc <= 1 && h > 0 && v == a + W * rest && r - W * d == a - c - oc && 0 <= d <= 1
    ensures RippleDown(v, h, c, oc) == r + W * RippleDown(rest, h - 1, d, d)
  {
    LowDigit(a, rest);
  }

  // The words zs and the carry out that a carry c into xs leaves
  ghost predicate CarriesInto(how: Ripple, zs: seq<Word>, c': Word, xs: seq<Word>, c: Word) {
    if how.Repaired? then AddsWord(zs, c', xs, c) else (zs, c') == CarryRipple(xs, c, 0)
  }

  ghost predicate BorrowsFrom(how: Ripple, zs: seq<Word>, c': Word, xs: seq<Word>, c: Word) {
    if how.Repaired? then SubsWord(zs, c', xs, c) else (zs, c') == BorrowRipple(xs, c, 0)
  }

  lemma CarriedIs(how: Ripple, zs: seq<Word>, c': Word, xs: seq<Word>, c: Word)
    requires c <= 1 && CarriesInto(how, zs, c', xs, c)
    ensures |zs| == |xs| && Val(zs) == Carried(how, Val(xs), |xs|, c)
  {
    hide Val, Pow, CarryRipple, RippleUp;
    ValBound(zs);
    ValBound(xs);
    if how.Repaired? {
      if c == 0 { NoCarryOut(Val(zs), c', Val(xs), Pow(|zs|)); }
      else { DivModUnique(Val(xs) + 1, Pow(|zs|), c', Val(zs)); }
    } else {
      CarryRippleRest(xs);
      RippleUpIs(xs, c, 0);
    }
  }

  lemma NoCarryOut(z: int, c: int, x: int, p: int)
    requires 0 <= z < p && 0 <= x < p && (z + c * p == x || z - c * p == x)
    ensures z == x
  {
    if c > 0 { MulMono(1, c, p); }
    if c < 0 { MulMono(c, -1, p); }
  }

  lemma BorrowedIs(how: Ripple, zs: seq<Word>, c': Word, xs: seq<Word>, c: Word)
    requires c <= 1 && BorrowsFrom(how, zs, c', xs, c)
    ensures |zs| == |xs| && Val(zs) == Borrowed(how, Val(xs), |xs|, c)
  {
    hide Val, Pow, BorrowRipple, RippleDown;
    ValBound(zs);
    ValBound(xs);
    if how.Repaired? {
      if c == 0 { NoCarryOut(Val(zs), c', Val(xs), Pow(|zs|)); }
      else {
        assert Val(xs) - 1 == (-(c' as int)) * Pow(|zs|) + Val(zs);
        DivModUnique(Val(xs) - 1, Pow(|zs|), -(c' as int), Val(zs));
      }
    } else {
      BorrowRippleRest(xs);
      RippleDownIs(xs, c, 0);
    }
  }

  lemma AddedIs(how: Ripple, low: seq<Word>, cl: Word, high: seq<Word>, c: Word, zs: seq<Word>, xs: seq<Word>)
    requires |xs| <= |zs| && cl <= 1 && AddsTo(low, cl, zs[..|xs|], xs)
    requires CarriesInto(how, high, c, zs[|xs|..], cl)
    ensures Val(low + high) == Added(how, Val(zs), Val(xs), |xs|, |zs| - |xs|)
  {
    hide *;
    var n := |xs|;
    AddsLength(low, cl, zs[..n], xs);
    CarriedIs(how, high, c, zs[n..], cl);
    ValAppend(low, high);
    ValSplit(zs, n);
    ValBound(zs[..n]);
    ValBound(low);
    ValBound(xs);
    SumValue(low, cl, zs[..n], xs);
    AddedParts(how, Val(low), cl, Val(zs[..n]), Val(zs[n..]), Val(zs), Val(xs), n, |zs| - n);
  }

  lemma AddedParts(how: Ripple, low: int, c: int, z0: int, z1: int, z: int, x: int, n: nat, t: nat)
    requires 0 <= low < Pow(n) && 0 <= z0 < Pow(n) && z == z0 + Pow(n) * z1
    requires low + c * Pow(n) == z0 + x && 0 <= c <= 1
    ensures Added(how, z, x, n, t) == low + Pow(n) * Carried(how, z1, t, c)
  {
    hide Pow, Carried;
    LowHigh(z, Pow(n), z0, z1);
    if c == 1 { assert c * Pow(n) == Pow(n); }
  }

  lemma SubtractedIs(how: Ripple, low: seq<Word>, cl: Word, high: seq<Word>, c: Word, zs: seq<Word>, xs: seq<Word>)
    requires |xs| <= |zs| && cl <= 1 && SubsTo(low, cl, zs[..|xs|], xs)
    requires BorrowsFrom(how, high, c, zs[|xs|..], cl)
    ensures Val(low + high) == Subtracted(how, Val(zs), Val(xs), |xs|, |zs| - |xs|)
  {
    hide *;
    var n := |xs|;
    SubsLength(low, cl, zs[..n], xs);
    BorrowedIs(how, high, c, zs[n..], cl);
    ValAppend(low, high);
    ValSplit(zs, n);
    ValBound(zs[..n]);
    ValBound(low);
    ValBound(xs);
    DifferenceValue(low, cl, zs[..n], xs);
    SubtractedParts(how, Val(low), cl, Val(zs[..n]), Val(zs[n..]), Val(zs), Val(xs), n, |zs| - n);
  }

  lemma SubtractedParts(how: Ripple, low: int, c: int, z0: int, z1: int, z: int, x: int, n: nat, t: nat)
    requires 0 <= low < Pow(n) && 0 <= z0 < Pow(n) && 0 <= x < Pow(n) && z == z0 + Pow(n) * z1
    requires low - (if c == 0 then 0 else Pow(n)) == z0 - x && 0 <= c <= 1
    ensures Subtracted(how, z, x, n, t) == low + Pow(n) * Borrowed(how, z1, t, c)
  {
    hide Pow, Borrowed;
    LowHigh(z, Pow(n), z0, z1);
    if c == 1 { assert c * Pow(n) == Pow(n); }
  }

  lemma StoredSum(how: Ripple, low: seq<Word>, cl: Word, high: seq<Word>, c: Word, zs: seq<Word>, xs: seq<Word>)
    requires |xs| <= |zs| && cl <= 1 && AddsTo(low, cl, zs[..|xs|], xs)
    requires CarriesInto(how, high, c, zs[|xs|..], cl)
    ensures Val(low + high) + c * Pow(|zs|) == Val(zs) + Val(xs) + SumError(how, zs, xs)
  {
    hide Val, Pow, CarryRipple, AddError, AddsTo;
    AddsLength(low, cl, zs[..|xs|], xs);
    if how.Repaired? {
      RepairedSum(low, cl, high, c, zs, xs);
    } else if |xs| == 0 {
      StoredRestSum(low, cl, high, c, zs, xs);
    } else {
      StoredParts(low, cl, high, c, zs, xs);
    }
  }

  lemma StoredRestSum(low: seq<Word>, cl: Word, high: seq<Word>, c: Word, zs: seq<Word>, xs: seq<Word>)
    requires |xs| == 0 && |low| == 0 && AddsTo(low, cl, zs[..0], xs) && (high, c) == CarryRipple(zs[|xs|..], cl, 0)
    ensures Val(low + high) + c * Pow(|zs|) == Val(zs) + Val(xs) + AddError(zs, xs)
  {
    hide Val, Pow, CarryRipple, AddError, AddsTo;
    NothingToAdd(zs, xs);
    NoLowCarry(low, cl, zs, xs);
    CarryRippleRest(zs);
    assert zs[|xs|..] == zs && low + high == zs;
  }

  lemma StoredParts(low: seq<Word>, cl: Word, high: seq<Word>, c: Word, zs: seq<Word>, xs: seq<Word>)
    requires 0 < |xs| <= |zs| && cl <= 1 && |low| == |xs| && AddsTo(low, cl, zs[..|xs|], xs)
    requires (high, c) == CarryRipple(zs[|xs|..], cl, 0)
    ensures Val(low + high) + c * Pow(|zs|) == Val(zs) + Val(xs) + AddError(zs, xs)
  {
    hide Val, Pow, CarryRipple, AddError, AddsTo;
    SumOfParts(low, cl, high, c, zs, xs);
    ValSnoc(low + high, c);
  }

  lemma RepairedSum(low: seq<Word>, cl: Word, high: seq<Word>, c: Word, zs: seq<Word>, xs: seq<Word>)
    requires |xs| <= |zs| && AddsTo(low, cl, zs[..|xs|], xs) && AddsWord(high, c, zs[|xs|..], cl)
    ensures Val(low + high) + c * Pow(|zs|) == Val(zs) + Val(xs)
  {
    hide *;
    var n := |xs|;
    SumValue(low, cl, zs[..n], xs);
    WordSum(high, c, zs[n..], cl);
    ValSplit(zs, n);
    ValAppend(low, high);
    PowAdd(n, |zs| - n);
    JoinExact(Val(low + high), Val(low), Val(high), c, Val(zs), Val(zs[..n]), Val(zs[n..]), Val(xs), cl,
              Pow(n), Pow(|high|), Pow(|zs|));
  }

  lemma WordSum(zs: seq<Word>, c: Word, xs: seq<Word>, y: int)
    requires AddsWord(zs, c, xs, y)
    ensures |zs| == |xs| && Val(zs) + c * Pow(|zs|) == Val(xs) + y
  {}

  lemma WordDifference(zs: seq<Word>, c: Word, xs: seq<Word>, y: int)
    requires SubsWord(zs, c, xs, y)
    ensures |zs| == |xs| && Val(zs) - c * Pow(|zs|) == Val(xs) - y
  {}

  lemma JoinExact(v: int, low: int, high: int, c: int, z: int, z0: int, z1: int, x: int, cl: int,
                  p: int, q: int, pq: int)
    requires low + cl * p == z0 + x && high + c * q == z1 + cl
    requires v == low + p * high && z == z0 + p * z1 && pq == p * q
    ensures v + c * pq == z + x
  {
    JoinSum(low, high, c, z0, z1, x, cl, 0, p, q);
  }

  lemma StoredDifference(how: Ripple, low: seq<Word>, cl: Word, high: seq<Word>, c: Word, zs: seq<Word>, xs: seq<Word>)
    requires |xs| <= |zs| && cl <= 1 && SubsTo(low, cl, zs[..|xs|], xs)
    requires BorrowsFrom(how, high, c, zs[|xs|..], cl)
    ensures Val(low + high) - c * Pow(|zs|) == Val(zs) - Val(xs) - DifferenceError(how, zs, xs)
  {
    hide Val, Pow, BorrowRipple, SubError, SubsTo;
    SubsLength(low, cl, zs[..|xs|], xs);
    if how.Repaired? {
      RepairedDifference(low, cl, high, c, zs, xs);
    } else if |xs| == 0 {
      StoredRestDifference(low, cl, high, c, zs, xs);
    } else {
      DifferenceOfParts(low, cl, high, c, zs, xs);
    }
  }

  lemma StoredRestDifference(low: seq<Word>, cl: Word, high: seq<Word>, c: Word, zs: seq<Word>, xs: seq<Word>)
    requires |xs| == 0 && |low| == 0 && SubsTo(low, cl, zs[..0], xs) && (high, c) == BorrowRipple(zs[|xs|..], cl, 0)
    ensures Val(low + high) - c * Pow(|zs|) == Val(zs) - Val(xs) - SubError(zs, xs)
  {
    hide Val, Pow, BorrowRipple, SubError, SubsTo;
    NothingToAdd(zs, xs);
    NoLowCarry(low, cl, zs, xs);
    BorrowRippleRest(zs);
    assert zs[|xs|..] == zs && low + high == zs;
  }

  lemma RepairedDifference(low: seq<Word>, cl: Word, high: seq<Word>, c: Word, zs: seq<Word>, xs: seq<Word>)
    requires |xs| <= |zs| && cl <= 1 && SubsTo(low, cl, zs[..|xs|], xs) && SubsWord(high, c, zs[|xs|..], cl)
    ensures Val(low + high) - c * Pow(|zs|) == Val(zs) - Val(xs)
  {
    hide *;
    var n := |xs|;
    SubsLength(low, cl, zs[..n], xs);
    DifferenceValue(low, cl, zs[..n], xs);
    WordDifference(high, c, zs[n..], cl);
    ValSplit(zs, n);
    ValAppend(low, high);
    PowAdd(n, |zs| - n);
    SplitExact(Val(low + high), Val(low), Val(high), c, Val(zs), Val(zs[..n]), Val(zs[n..]), Val(xs), cl,
               Pow(n), Pow(|high|), Pow(|zs|));
  }

  lemma SplitExact(v: int, low: int, high: int, c: int, z: int, z0: int, z1: int, x: int, cl: Word,
                   p: int, q: int, pq: int)
    requires cl <= 1 && low - (if cl == 0 then 0 else p) == z0 - x && high - c * q == z1 - cl
    requires v == low + p * high && z == z0 + p * z1 && pq == p * q
    ensures v - c * pq == z - x
  {
    JoinDifference(low, high, c, z0, z1, x, cl, 0, p, q);
  }

  lemma AddsLength(low: seq<Word>, c: Word, xs: seq<Word>, ys: seq<Word>)
    requires AddsTo(low, c, xs, ys)
    ensures |low| == |xs| == |ys|
  {}

  lemma NoLowCarry(low: seq<Word>, cl: Word, zs: seq<Word>, xs: seq<Word>)
    requires |xs| == 0 && (AddsTo(low, cl, zs[..0], xs) || SubsTo(low, cl, zs[..0], xs))
    ensures cl == 0
  {}

  lemma SubsLength(low: seq<Word>, c: Word, xs: seq<Word>, ys: seq<Word>)
    requires SubsTo(low, c, xs, ys)
    ensures |low| == |xs| == |ys|
  {}

  // ---- the two loops --------------------------------------------------------------------------

  // addVV on the first n words, and addVW on those up to total if it carries
  method AddThenRipple(z: Nat, x: Nat, n: nat, total: nat, how: Ripple) returns (ghost carry: Word)
    requires InBounds(z) && InBounds(x) && n <= total <= z.len && n <= x.len
    requires Disjoint(z, total, x, n)
    modifies z.data
    ensures OnlyWithin(z.data, z.off, z.off + total)
    ensures var zs, xs, zs' := old(First(z, total)), old(First(x, n)), First(z, total);
      && Val(zs') + carry * Pow(total) == Val(zs) + Val(xs) + SumError(how, zs, xs)
      && Val(zs') == Added(how, Val(zs), Val(xs), n, total - n)
      && (Val(zs) + Val(xs) < Pow(total) ==> (Val(zs') == Val(zs) + Val(xs) <==> how.Repaired? || SumExact(zs, xs)))
  {
    hide Val, Pow, AddsTo, CarriesInto, SumError, Added, SumExact;
    ghost var zs, xs := First(z, total), First(x, n);
    PartsOf(z, n, total);
    var c := AddVV(Part(z, 0, n), z, x);
    ghost var low := First(z, n);
    assert First(Part(z, n, total), total - n) == zs[n..];
    carry := RippleCarry(z, n, total, c, how);
    JoinViews(z, n, total);
    StoredSum(how, low, c, First(Part(z, n, total), total - n), carry, zs, xs);
    AddedIs(how, low, c, First(Part(z, n, total), total - n), carry, zs, xs);
    if Val(zs) + Val(xs) < Pow(total) { SumStored(how, First(z, total), carry, zs, xs); }
  }

  // The carry of the low n words goes on into the words up to total.
  method RippleCarry(z: Nat, n: nat, total: nat, c: Word, how: Ripple) returns (ghost c': Word)
    requires InBounds(z) && n <= total <= z.len
    modifies z.data
    ensures OnlyWithin(z.data, z.off + n, z.off + total) && First(z, n) == old(First(z, n))
    ensures CarriesInto(how, First(Part(z, n, total), total - n), c', old(First(Part(z, n, total), total - n)), c)
  {
    hide CarriesInto;
    c' := 0;
    NoCarry(First(Part(z, n, total), total - n), how);
    if c != 0 {
      c' := AddWord(Part(z, n, total), Part(z, n, z.len), c, how);
    }
  }

  method AddWord(z: Nat, x: Nat, y: Word, how: Ripple) returns (c: Word)
    requires var n := Min(z.len, x.len);
      z.off + n <= z.data.Length && x.off + n <= x.data.Length && ReadsAhead(z, x, n)
    modifies z.data
    ensures var n := Min(z.len, x.len);
      OnlyWithin(z.data, z.off, z.off + n) && CarriesInto(how, First(z, n), c, old(First(x, n)), y)
  {
    hide CarryRipple, AddsWord;
    match how
    case AsWritten =>
      ghost var end;
      c, end := AddVW(z, x, y);
    case Repaired => c := AddVWRepaired(z, x, y);
  }

  // No carry means nothing to ripple.
  lemma NoCarry(xs: seq<Word>, how: Ripple)
    ensures CarriesInto(how, xs, 0, xs, 0) && BorrowsFrom(how, xs, 0, xs, 0)
  {
    CarryRippleRest(xs);
    BorrowRippleRest(xs);
  }

  // subVV on the first n words, and subVW on those up to total if it borrows
  method SubThenRipple(z: Nat, x: Nat, n: nat, total: nat, how: Ripple) returns (ghost borrow: Word)
    requires InBounds(z) && InBounds(x) && n <= total <= z.len && n <= x.len
    requires Disjoint(z, total, x, n)
    modifies z.data
    ensures OnlyWithin(z.data, z.off, z.off + total)
    ensures var zs, xs, zs' := old(First(z, total)), old(First(x, n)), First(z, total);
      && Val(zs') - borrow * Pow(total) == Val(zs) - Val(xs) - DifferenceError(how, zs, xs)
      && Val(zs') == Subtracted(how, Val(zs), Val(xs), n, total - n)
      && (Val(xs) <= Val(zs) ==> (Val(zs') == Val(zs) - Val(xs) <==> how.Repaired? || DifferenceExact(zs, xs)))
  {
    hide Val, Pow, SubsTo, BorrowsFrom, DifferenceError, Subtracted, DifferenceExact;
    ghost var zs, xs := First(z, total), First(x, n);
    PartsOf(z, n, total);
    var c := SubVV(Part(z, 0, n), z, x);
    ghost var low := First(z, n);
    assert First(Part(z, n, total), total - n) == zs[n..];
    borrow := RippleBorrow(z, n, total, c, how);
    JoinViews(z, n, total);
    StoredDifference(how, low, c, First(Part(z, n, total), total - n), borrow, zs, xs);
    SubtractedIs(how, low, c, First(Part(z, n, total), total - n), borrow, zs, xs);
    if Val(xs) <= Val(zs) { DifferenceStored(how, First(z, total), borrow, zs, xs); }
  }

  // The borrow of the low n words goes on into the words up to total.
  method RippleBorrow(z: Nat, n: nat, total: nat, c: Word, how: Ripple) returns (ghost c': Word)
    requires InBounds(z) && n <= total <= z.len
    modifies z.data
    ensures OnlyWithin(z.data, z.off + n, z.off + total) && First(z, n) == old(First(z, n))
    ensures BorrowsFrom(how, First(Part(z, n, total), total - n), c', old(First(Part(z, n, total), total - n)), c)
  {
    hide BorrowsFrom;
    c' := 0;
    NoCarry(First(Part(z, n, total), total - n), how);
    if c != 0 {
      c' := SubWord(Part(z, n, total), Part(z, n, z.len), c, how);
    }
  }

  method SubWord(z: Nat, x: Nat, y: Word, how: Ripple) returns (c: Word)
    requires var n := Min(z.len, x.len);
      z.off + n <= z.data.Length && x.off + n <= x.data.Length && ReadsAhead(z, x, n)
    modifies z.data
    ensures var n := Min(z.len, x.len);
      OnlyWithin(z.data, z.off, z.off + n) && BorrowsFrom(how, First(z, n), c, old(First(x, n)), y)
  {
    hide BorrowRipple, SubsWord;
    match how
    case AsWritten =>
      ghost var end;
      c, end := SubVW(z, x, y);
    case Repaired => c := SubVWRepaired(z, x, y);
  }

  lemma PartsOf(z: Nat, n: nat, total: nat)
    requires InBounds(z) && n <= total <= z.len
    ensures First(z, n) == First(z, total)[..n]
    ensures First(Part(z, n, total), total - n) == First(z, total)[n..]
  {}

  // ---- inputs for which they go wrong ---------------------------------------------------------

  // n + 1 words W - 1, then zeros; and the number 1 in n words
  function Ones(n: nat, rest: nat): (s: seq<Word>)
    ensures |s| == n + 1 + rest
  {
    seq(n + 1 + rest, i requires 0 <= i < n + 1 + rest => if i <= n then W - 1 else 0)
  }

  // 0 in n + 1 words, then words W - 1
  function Zeros(n: nat, rest: nat): (s: seq<Word>)
    ensures |s| == n + 1 + rest
  {
    seq(n + 1 + rest, i requires 0 <= i < n + 1 + rest => if i <= n then 0 else W - 1)
  }

  function One(n: nat): (s: seq<Word>)
    ensures |s| == n
  {
    seq(n, i requires 0 <= i < n => if i == 0 then 1 else 0)
  }

  lemma OneIsOne(n: nat)
    requires n > 0
    ensures Val(One(n)) == 1
  {
    ValCons(One(n));
    ValZeros(One(n)[1..]);
  }

  lemma {:induction false} AllOnes(s: seq<Word>)
    requires forall i :: 0 <= i < |s| ==> s[i] == W - 1
    ensures Val(s) == Pow(|s|) - 1
  {
    if |s| > 0 {
      AllOnes(s[..|s| - 1]);
      NextPow(|s| - 1);
      assert (W - 1) * Pow(|s| - 1) == W * Pow(|s| - 1) - Pow(|s| - 1);
    }
  }

  // Adding 1 to n + 1 words W - 1 with room above: the sum fits and comes out wrong.
  lemma SumGoesWrong(n: nat, rest: nat)
    requires n > 0 && rest > 0
    ensures Val(Ones(n, rest)) + Val(One(n)) < Pow(n + 1 + rest) && !SumExact(Ones(n, rest), One(n))
  {
    hide Pow;
    var zs := Ones(n, rest);
    OneIsOne(n);
    AllOnes(zs[..n]);
    AllOnes(zs[..n + 1]);
    ZeroTail(zs, n + 1);
    PowMono(n + 1, n + rest);
    NextPow(n + rest);
  }

  // Taking 1 from a number whose n + 1 lowest words are 0: the difference comes out wrong.
  lemma DifferenceGoesWrong(n: nat, rest: nat)
    requires n > 0 && rest > 0
    ensures Val(One(n)) <= Val(Zeros(n, rest)) && !DifferenceExact(Zeros(n, rest), One(n))
  {
    hide Pow;
    var zs := Zeros(n, rest);
    OneIsOne(n);
    ValZeros(zs[..n]);
    NormalLow(zs);
  }
}
