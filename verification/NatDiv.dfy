/** cmake/bigint/src/natdiv.c, last part: normalise, divide, denormalise. Storage handed in for
    the results is reused when it is large enough, as natMake does. */
module Division {
  import opened Bits
  import opened Base
  import opened Nats
  import opened WordDiv
  import opened Shift
  import opened DivBasic
  import opened DivRecursive

  // ---- natMake, natSetWord, natSet ---------------------------------------------------------

  // A view of n words: of z's own storage if it is large enough, of new words otherwise
  method NatMake(z: Nat, n: nat) returns (t: Nat)
    requires Storage(z)
    ensures t.len == n && Storage(t) && InBounds(t)
    ensures if n < z.cap then t == Part(z, 0, n)
            else fresh(t.data) && t.off == 0 && t.cap == (if n == 1 then 1 else n + 4)
                 && forall k :: 0 <= k < n ==> Words(t)[k] == 0
  {
    if n < z.cap {
      return Part(z, 0, n);
    }
    if n == 1 {
      t := NewLen(1);
      return;
    }
    t := NewLen(n + 4);
    t := t.(len := n);
  }

  method NatSetWord(z: Nat, x: Word) returns (t: Nat)
    requires Storage(z)
    modifies z.data
    ensures Storage(t) && InBounds(t) && if x == 0 || 1 < z.cap then t.data == z.data else fresh(t.data)
    ensures Normal(Words(t)) && Val(Words(t)) == x
  {
    hide Val;
    if x == 0 {
      t := Part(z, 0, 0);
      ValEmpty(Words(t));
      return;
    }
    t := NatMake(z, 1);
    t.data[t.off] := x;
    ValOne(Words(t));
  }

  method NatSet(z: Nat, x: Nat) returns (t: Nat)
    requires Storage(z) && InBounds(x) && z.data != x.data
    modifies z.data
    ensures Storage(t) && InBounds(t) && if x.len < z.cap then t.data == z.data else fresh(t.data)
    ensures Words(t) == Words(x)
  {
    t := NatMake(z, x.len);
    NatCopy(t, x);
  }

  // ---- natDivLarge -------------------------------------------------------------------------

  // The shifted dividend: one word longer than uIn
  method ShiftDividend(z2: Nat, uIn: Nat, shift: nat) returns (u: Nat)
    requires Storage(z2) && InBounds(uIn) && z2.data != uIn.data && shift < 64
    modifies z2.data
    ensures Storage(u) && InBounds(u) && u.len == uIn.len + 1 && (u.data == z2.data || fresh(u.data))
    ensures Val(Words(u)) == Val(Words(uIn)) * Pow2(shift)
  {
    hide Val, Pow, Pow2;
    u := NatMake(z2, uIn.len + 1);
    var c := ShlVU(Part(u, 0, uIn.len), uIn, shift);
    ghost var low := First(u, uIn.len);
    u.data[u.off + uIn.len] := c;
    assert Words(u) == low + [c];
    ValSnoc(low, c);
  }

  // The shifted divisor has its top bit set.
  method ShiftDivisor(vIn: Nat, shift: nat) returns (v: Nat)
    requires InBounds(vIn) && vIn.len >= 2 && Normal(Words(vIn)) && shift == Nlz(Words(vIn)[vIn.len - 1])
    ensures fresh(v.data) && InBounds(v) && v.len == vIn.len && shift < 64
    ensures Divisor(Words(v)) && Val(Words(v)) == Val(Words(vIn)) * Pow2(shift)
  {
    hide Val, Pow, Pow2, Nlz;
    ghost var vs := Words(vIn);
    var n := vIn.len;
    Normalises(vs[n - 1]);
    v := NewLen(n);
    var c := ShlVU(v, vIn, shift);
    TopBitSet(vs, Words(v), c, shift);
  }

  lemma TopBitSet(vs: seq<Word>, ws: seq<Word>, c: Word, shift: nat)
    requires |vs| == |ws| >= 2 && vs[|vs| - 1] > 0 && shift == Nlz(vs[|vs| - 1]) < 64
    requires Val(ws) + c * Pow(|ws|) == Val(vs) * Pow2(shift)
    ensures Divisor(ws) && Val(ws) == Val(vs) * Pow2(shift)
  {
    hide Val, Pow, Pow2, Nlz;
    var n := |vs| - 1;
    var top: int, p := vs[n], Pow2(shift);
    ShlBelow(vs[n], shift);
    Pow2Add(64 - shift, shift);
    Pow2Consts();
    TakeAll(vs);
    TakeAll(ws);
    ValPrefix(vs, n);
    ValPrefix(ws, n);
    ValBound(vs[..n]);
    ValBound(ws[..n]);
    NextPow(n);
    TopTimesP(top, p, Pow2(64 - shift));
    TopArithmetic(Val(vs[..n]), top, Val(ws[..n]), ws[n], c, Pow(n), p);
  }

  lemma ShlBelow(y: Word, s: nat)
    requires y > 0 && s == Nlz(y)
    ensures s < 64 && TOP <= y * Pow2(s) < W
  {
    Normalises(y);
  }

  // top * p is below W, which p divides, so there is room for one more p.
  lemma TopTimesP(top: int, p: int, c: int)
    requires p > 0 && c * p == W && top * p < W
    ensures top * p + p <= W
  {
    CancelLt(top, c, p);
    MulMono(top + 1, c, p);
    assert (top + 1) * p == top * p + p;
  }

  lemma TopArithmetic(low: int, top: int, low': int, top': int, c: int, q: int, p: int)
    requires 0 <= low < q && 0 <= low' < q && p > 0 && TOP <= top * p && top * p + p <= W && top' >= 0 && c >= 0
    requires (low' + top' * q) + c * (W * q) == (low + top * q) * p
    ensures c == 0 && top' >= TOP
  {
    var t := top * p;
    Regroup(low, top, low', top', c, q, p);
    TopBounds(low, t, low', top', c, q, p);
    CancelLt(c, 1, W * q);
    MulMono(0, top', q);
    CancelLt(t, top' + 1, q);
  }

  lemma Regroup(low: int, top: int, low': int, top': int, c: int, q: int, p: int)
    requires (low' + top' * q) + c * (W * q) == (low + top * q) * p
    ensures low' + top' * q + c * (W * q) == low * p + (top * p) * q
  {
    assert (low + top * q) * p == low * p + (top * q) * p;
    MulAssoc(top, q, p);
    MulAssoc(top, p, q);
  }

  lemma TopBounds(low: int, t: int, low': int, top': int, c: int, q: int, p: int)
    requires 0 <= low < q && 0 <= low' < q && p > 0 && 0 <= t && t + p <= W && top' >= 0 && c >= 0
    requires low' + top' * q + c * (W * q) == low * p + t * q
    ensures c * (W * q) < 1 * (W * q)
    ensures c == 0 ==> t * q < (top' + 1) * q
  {
    MulMono(low + 1, q, p);
    assert (low + 1) * p == low * p + p;
    MulMono(t + p, W, q);
    assert (t + p) * q == t * q + p * q;
    MulMono(0, top', q);
    MulMono(0, low, p);
    assert (top' + 1) * q == top' * q + q;
  }

  // What lets the division start: the quotient of the shifted operands has at most
  // uIn.len - n + 1 words.
  lemma RoomForQuotient(us: seq<Word>, vs: seq<Word>, p: int)
    requires |us| >= |vs| > 0 && Normal(vs) && p > 0
    ensures Val(us) * p < (Val(vs) * p) * Pow(|us| - |vs| + 1)
  {
    hide *;
    var k := |us| - |vs| + 1;
    ValBound(us);
    NormalLow(vs);
    PowAdd(|vs| - 1, k);
    MulMono(Pow(|vs| - 1), Val(vs), Pow(k));
    ScaledBelow(Val(us), Val(vs), Pow(k), p);
  }

  lemma ScaledBelow(u: int, v: int, q: int, p: int)
    requires u < v * q && p > 0
    ensures u * p < (v * p) * q
  {
    MulMono(u + 1, v * q, p);
    assert (u + 1) * p == u * p + p;
    assert (v * q) * p == (v * p) * q;
  }

  // The quotient of the shifted operands, by either algorithm
  method Quotient(z: Nat, u: Nat, v: Nat) returns (q: Nat, ghost wrong: bool)
    requires Storage(z) && InBounds(u) && InBounds(v)
    requires z.data != u.data && z.data != v.data && u.data != v.data
    requires Divisor(Words(v)) && u.len > v.len
    requires Val(Words(u)) < Val(Words(v)) * Pow(u.len - v.len)
    modifies z.data, u.data
    ensures InBounds(q) && Storage(q) && (q.data == z.data || fresh(q.data)) && Normal(Words(q))
    ensures OnlyWithin(u.data, u.off, u.off + u.len)
    ensures Val(old(Words(u))) == Val(Words(q)) * Val(Words(v)) + Val(Words(u))
    ensures 0 <= Val(Words(u)) < Val(Words(v))
    ensures wrong <==> GoesWrong(Val(old(Words(u))), Words(v))
  {
    hide Val, Pow, Divisor, Divided, GoesWrong;
    ghost var u0 := Words(u);
    q := NatMake(z, u.len - v.len);
    if v.len < DIV_RECURSIVE_THRESHOLD {
      wrong := false;
      ShortDivisor(Val(u0), Words(v));
      TailBelow(Words(u), q.len, Val(Words(v)));
      assert Tail(u, q.len) == u0[q.len..];
      NatDivBasic(q, u, v);
      FromDigits(Val(u0), Words(q), Val(Words(v)), Val(Words(u)));
    } else {
      wrong := NatDivRecursive(q, u, v);
    }
    q := NatNorm(q);
  }

  lemma ShortDivisor(x: int, vs: seq<Word>)
    requires Divisor(vs) && |vs| < DIV_RECURSIVE_THRESHOLD
    ensures !GoesWrong(x, vs)
  {}

  lemma FromDigits(x: int, qs: seq<Word>, v: int, r: int)
    requires Divided(x, qs, v, r)
    ensures x == Val(qs) * v + r
  {}

  // The divisor as natDivLarge shifts it
  ghost function Normalised(vs: seq<Word>): (ws: seq<Word>)
    requires |vs| > 0
    ensures |ws| == |vs|
  {
    WordsOf(Val(vs) * Pow2(Nlz(vs[|vs| - 1])), |vs|)
  }

  // Some comparison in the division of the shifted operands is misjudged.
  ghost predicate LargeGoesWrong(x: int, vs: seq<Word>)
    requires |vs| > 0
  {
    Divisor(Normalised(vs)) && GoesWrong(x * Pow2(Nlz(vs[|vs| - 1])), Normalised(vs))
  }

  method NatDivLarge(z: Nat, z2: Nat, uIn: Nat, vIn: Nat) returns (q: Nat, r: Nat, ghost wrong: bool)
    requires Storage(z) && Storage(z2) && InBounds(uIn) && InBounds(vIn)
    requires z2.data != z.data && z2.data != uIn.data
    requires vIn.len >= 2 && Normal(Words(vIn)) && uIn.len >= vIn.len
    modifies z.data, z2.data
    ensures InBounds(q) && InBounds(r) && Normal(Words(q)) && Normal(Words(r)) && Storage(q) && Storage(r)
    ensures (q.data == z.data || fresh(q.data)) && (r.data == z2.data || fresh(r.data)) && q.data != r.data
    ensures var x, y := Val(old(Words(uIn))), Val(old(Words(vIn)));
      x == Val(Words(q)) * y + Val(Words(r)) && 0 <= Val(Words(r)) < y
    ensures wrong <==> LargeGoesWrong(Val(old(Words(uIn))), old(Words(vIn)))
  {
    hide Val, Pow, Pow2, Divisor, Nlz, GoesWrong;
    var n := vIn.len;
    ghost var xs, ys := Words(uIn), Words(vIn);
    var shift := Nlz(vIn.data[vIn.off + n - 1]);
    var v := ShiftDivisor(vIn, shift);
    var u := ShiftDividend(z2, uIn, shift);
    RoomForQuotient(xs, ys, Pow2(shift));
    WordsOfVal(Words(v));
    assert Normalised(ys) == Words(v);
    q, wrong := Quotient(z, u, v);
    ghost var rem := Val(Words(u));
    var c := ShrVU(u, u, shift);
    Unscale(Val(xs), Val(Words(q)), Val(ys), Pow2(shift), rem);
    ShiftedBack(rem, Val(Words(u)), Pow2(shift));
    r := NatNorm(u);
  }

  lemma ShiftedBack(rem: int, z: int, p: int)
    requires z * p <= rem < z * p + p
    ensures z == rem / p
  {
    DivModUnique(rem, p, z, rem - z * p);
  }

  // ---- natDiv ------------------------------------------------------------------------------

  // Dividing a nonzero (or unnormalised) u by 1 is the one case in which natDivW, called with u
  // not below v, leaves the remainder unset.
  predicate RemainderUnset(us: seq<Word>, vs: seq<Word>) {
    vs == [1] && |us| > 0 && (|us| == 1 ==> us[0] != 0)
  }

  lemma CmpWithDivisor(us: seq<Word>, vs: seq<Word>)
    requires Normal(vs) && |vs| > 0
    ensures var c := if |us| == |vs| then Order(Val(us), Val(vs)) else Order(|us|, |vs|);
      && (c < 0 ==> Val(us) < Val(vs) && !RemainderUnset(us, vs))
      && (c >= 0 ==> |us| >= |vs| && (vs == [1] ==> RemainderUnset(us, vs)))
  {
    if |us| < |vs| { LongerIsLarger(vs, us); }
    if |us| == |vs| == 1 { ValOne(us); ValOne(vs); }
  }

  method DivideByWord(z2: Nat, u: Nat, y: Word, junk: Word) returns (q: Nat, r: Nat)
    requires Storage(z2) && InBounds(u) && z2.data != u.data && u.len > 0 && y != 0
    modifies z2.data
    ensures InBounds(q) && InBounds(r) && Storage(q) && Storage(r)
    ensures fresh(q.data) && (r.data == z2.data || fresh(r.data)) && q.data != r.data
    ensures Val(Words(q)) == Val(old(Words(u))) / y
    ensures Val(Words(r)) == if y == 1 then junk as int else Val(old(Words(u))) % y
    ensures Normal(Words(r)) && (old(Normal(Words(u))) || y > 1 ==> Normal(Words(q)))
  {
    hide Val;
    ghost var xs := Words(u);
    var rem: Word;
    q, rem := NatDivW(u, y, junk);
    if y > 1 { DivModUnique(Val(xs), y, Val(Words(q)), rem); }
    ghost var qs := Words(q);
    r := NatSetWord(z2, rem);
    assert Words(q) == qs;
  }

  // natDiv gets to a division by blocks in which some comparison is misjudged.
  ghost predicate DivGoesWrong(us: seq<Word>, vs: seq<Word>)
    requires |vs| > 0
  {
    && (if |us| == |vs| then Val(us) >= Val(vs) else |us| > |vs|)
    && LargeGoesWrong(Val(us), vs)
  }

  lemma ShortIsRight(us: seq<Word>, vs: seq<Word>)
    requires |vs| > 0
    ensures DivGoesWrong(us, vs) ==> |vs| >= 100
  {
    hide Val, Divisor, Normalised, Nlz, Pow2;
  }

  // It does for v * W^m with any divisor of 100 words or more and m above half of their number.
  lemma NatDivGoesWrong(us: seq<Word>, vs: seq<Word>, m: nat)
    requires |vs| >= 100 && Normal(vs) && m > |vs| / 2
    requires Normal(us) && Val(us) == Val(vs) * Pow(m)
    ensures DivGoesWrong(us, vs)
  {
    hide Val, Pow, Pow2, Divisor, GoesWrong, Nlz, WordsOf, WordLen;
    NormalisedIs(vs);
    var p := Pow2(Nlz(vs[|vs| - 1]));
    MultipleGoesWrong(Normalised(vs), m);
    assert (Val(vs) * Pow(m)) * p == (Val(vs) * p) * Pow(m);
    MultipleLonger(us, vs, m);
  }

  lemma MultipleLonger(us: seq<Word>, vs: seq<Word>, m: nat)
    requires |vs| > 0 && Normal(vs) && Val(us) == Val(vs) * Pow(m)
    ensures if |us| == |vs| then Val(us) >= Val(vs) else |us| > |vs|
  {
    ValBound(vs);
    MulMono(1, Pow(m), Val(vs));
    assert Pow(m) * Val(vs) == Val(vs) * Pow(m);
    if |us| < |vs| { LongerIsLarger(vs, us); }
  }

  // Shifting by the leading zeros of the top word stays within the words.
  lemma ShiftedFits(vs: seq<Word>, shift: nat)
    requires |vs| > 0 && Normal(vs) && shift == Nlz(vs[|vs| - 1])
    ensures 0 <= Val(vs) * Pow2(shift) < Pow(|vs|)
  {
    hide Val, Pow, Pow2, Nlz;
    var n := |vs| - 1;
    ShlBelow(vs[n], shift);
    Pow2Add(64 - shift, shift);
    Pow2Consts();
    TakeAll(vs);
    ValPrefix(vs, n);
    ValBound(vs[..n]);
    NextPow(n);
    TopTimesP(vs[n], Pow2(shift), Pow2(64 - shift));
    ShiftedBelow(Val(vs[..n]), vs[n], Pow(n), Pow2(shift));
  }

  lemma ShiftedBelow(low: int, top: int, q: int, p: int)
    requires 0 <= low < q && 0 <= top && p > 0 && top * p + p <= W
    ensures 0 <= (low + top * q) * p < W * q
  {
    MulMono(0, top, q);
    MulMono(0, low + top * q, p);
    MulMono(low + 1 + top * q, q + top * q, p);
    assert (low + 1 + top * q) * p == (low + top * q) * p + p;
    assert (q + top * q) * p == (top * p + p) * q;
    MulMono(top * p + p, W, q);
  }

  lemma NormalisedIs(vs: seq<Word>)
    requires |vs| >= 2 && Normal(vs)
    ensures Divisor(Normalised(vs)) && Val(Normalised(vs)) == Val(vs) * Pow2(Nlz(vs[|vs| - 1]))
  {
    hide Val, Pow, Pow2, Divisor, Nlz;
    var shift := Nlz(vs[|vs| - 1]);
    Normalises(vs[|vs| - 1]);
    var x := Val(vs) * Pow2(shift);
    ShiftedFits(vs, shift);
    ValOfWords(x, |vs|);
    TopBitSet(vs, WordsOf(x, |vs|), 0, shift);
  }

  // junk is what the uninitialised r2 holds when natDivW does not set it (line 309).
  method NatDiv(z: Nat, z2: Nat, u: Nat, v: Nat, junk: Word) returns (q: Nat, r: Nat, ghost wrong: bool)
    requires Storage(z) && Storage(z2) && InBounds(u) && InBounds(v)
    requires z2.data != z.data && z2.data != u.data
    requires v.len > 0 && Normal(Words(v))
    modifies z.data, z2.data
    ensures InBounds(q) && InBounds(r) && Storage(q) && Storage(r) && Val(old(Words(v))) > 0
    ensures Val(Words(q)) == Val(old(Words(u))) / Val(old(Words(v)))
    ensures Val(Words(r)) == if RemainderUnset(old(Words(u)), old(Words(v))) then junk as int
                             else Val(old(Words(u))) % Val(old(Words(v)))
    ensures q.data == z.data || fresh(q.data)
    ensures (r.data == z2.data || fresh(r.data)) && q.data != r.data
    ensures old(Normal(Words(u))) ==> Normal(Words(q)) && Normal(Words(r))
    ensures wrong <==> DivGoesWrong(old(Words(u)), old(Words(v)))
  {
    hide Val, Pow, Divisor, LargeGoesWrong;
    wrong := false;
    ghost var xs, ys := Words(u), Words(v);
    NormalLow(ys);
    ValBound(xs);
    var order := NatCmp(u, v);
    CmpWithDivisor(xs, ys);
    ShortIsRight(xs, ys);
    if order < 0 {
      q := Part(z, 0, 0);
      r := NatSet(z2, u);
      ValEmpty(Words(q));
      DivModUnique(Val(xs), Val(ys), 0, Val(xs));
    } else if v.len == 1 {
      q, r := DivideByWord(z2, u, v.data[v.off], junk);
      ValOne(ys);
    } else {
      q, r, wrong := NatDivLarge(z, z2, u, v);
      DivModUnique(Val(xs), Val(ys), Val(Words(q)), Val(Words(r)));
    }
  }

  // natRem: the remainder alone, with the quotient in storage of its own
  method NatRem(z: Nat, u: Nat, v: Nat, junk: Word) returns (r: Nat)
    requires Storage(z) && InBounds(u) && InBounds(v) && z.data != u.data
    requires v.len > 0 && Normal(Words(v))
    modifies z.data
    ensures InBounds(r) && Val(old(Words(v))) > 0 && (r.data == z.data || fresh(r.data))
    ensures Val(Words(r)) == if RemainderUnset(old(Words(u)), old(Words(v))) then junk as int
                             else Val(old(Words(u))) % Val(old(Words(v)))
    ensures old(Normal(Words(u))) ==> Normal(Words(r))
  {
    hide Val, RemainderUnset;
    var qp := NewLen(0);
    var q: Nat;
    ghost var wrong;
    q, r, wrong := NatDiv(qp, z, u, v, junk);
  }
}
