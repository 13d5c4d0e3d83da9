/** cmake/bigint/src/nat.c and nat.h: little-endian word arrays, their value, and
    the views (natPart) through which every kernel reads and writes them. */
module Nats {
  import opened Bits

  // ---- the number a word sequence stands for --------------------------------

  function Pow(k: nat): (p: int)
    ensures p >= 1
  {
    if k == 0 then 1 else W * Pow(k - 1)
  }

  // sum of s[i] * W^i
  function Val(s: seq<Word>): (v: int) {
    if |s| == 0 then 0 else Val(s[..|s| - 1]) + s[|s| - 1] * Pow(|s| - 1)
  }

  lemma ValPrefix(s: seq<Word>, i: nat)
    requires i < |s|
    ensures Val(s[..i + 1]) == Val(s[..i]) + s[i] * Pow(i)
  {
    assert s[..i + 1][..i] == s[..i];
  }

  lemma ValSnoc(s: seq<Word>, w: Word)
    ensures Val(s + [w]) == Val(s) + w * Pow(|s|)
  {
    assert (s + [w])[..|s|] == s;
  }

  lemma {:induction false} ValBound(s: seq<Word>)
    ensures 0 <= Val(s) < Pow(|s|)
  {
    if |s| > 0 {
      var n := |s| - 1;
      ValBound(s[..n]);
      var p := Pow(n);
      var w: int := s[n];
      MulMono(0, w, p);
      MulMono(w + 1, W, p);
      assert (w + 1) * p == w * p + p;
    }
  }

  lemma {:induction false} PowAdd(a: nat, b: nat)
    ensures Pow(a + b) == Pow(a) * Pow(b)
  {
    if a > 0 {
      PowAdd(a - 1, b);
      MulAssoc(W, Pow(a - 1), Pow(b));
    }
  }

  lemma {:induction false} PowMono(a: nat, b: nat)
    requires a <= b
    ensures Pow(a) <= Pow(b)
  {
    if a < b { PowMono(a, b - 1); }
  }

  lemma {:induction false} ValAppend(a: seq<Word>, b: seq<Word>)
    ensures Val(a + b) == Val(a) + Pow(|a|) * Val(b)
  {
    if |b| == 0 {
      assert a + b == a;
    } else {
      var n := |b| - 1;
      assert a + b == (a + b[..n]) + [b[n]];
      ValAppend(a, b[..n]);
      ValSnoc(a + b[..n], b[n]);
      PowAdd(|a|, n);
      Spread(Pow(|a|), Val(b[..n]), b[n], Pow(n));
    }
  }

  lemma Spread(p: int, v: int, w: int, q: int)
    ensures p * (v + w * q) == p * v + w * (p * q)
  {}

  // Splitting a word sequence at i splits its value.
  lemma ValSplit(s: seq<Word>, i: nat)
    requires i <= |s|
    ensures Val(s) == Val(s[..i]) + Pow(i) * Val(s[i..])
  {
    assert s == s[..i] + s[i..];
    ValAppend(s[..i], s[i..]);
  }

  lemma ValOne(s: seq<Word>)
    requires |s| == 1
    ensures Val(s) == s[0]
  {
    assert s[..0] == [];
    assert Pow(0) == 1;
  }

  lemma {:induction false} ValZeros(s: seq<Word>)
    requires forall i :: 0 <= i < |s| ==> s[i] == 0
    ensures Val(s) == 0
  {
    if |s| > 0 { ValZeros(s[..|s| - 1]); }
  }

  // Equal values of equal length are equal words.
  lemma {:induction false} ValInjective(a: seq<Word>, b: seq<Word>)
    requires |a| == |b| && Val(a) == Val(b)
    ensures a == b
  {
    if |a| > 0 {
      var n := |a| - 1;
      ValBound(a[..n]);
      ValBound(b[..n]);
      SameDigit(a[n], Val(a[..n]), b[n], Val(b[..n]), Pow(n));
      ValInjective(a[..n], b[..n]);
      assert a == a[..n] + [a[n]];
      assert b == b[..n] + [b[n]];
    }
  }

  lemma SameDigit(q: int, r: int, q': int, r': int, p: int)
    requires 0 <= r < p && 0 <= r' < p && r + q * p == r' + q' * p
    ensures q == q' && r == r'
  {
    DivModUnique(q * p + r, p, q, r);
    DivModUnique(q * p + r, p, q', r');
  }

  lemma NextPow(i: nat)
    ensures Pow(i + 1) == W * Pow(i)
  {}

  lemma {:induction false} ValCons(s: seq<Word>)
    requires |s| > 0
    ensures Val(s) == s[0] + W * Val(s[1..])
  {
    assert s == s[..1] + s[1..];
    ValAppend(s[..1], s[1..]);
    ValOne(s[..1]);
    NextPow(0);
  }

  lemma ValEmpty(s: seq<Word>)
    requires |s| == 0
    ensures Val(s) == 0
  {}

  lemma ScaleByW(a: int, p: int)
    ensures W * (a * p) == a * (W * p)
  {}

  // A value below W^n has only zeros from word n on.
  lemma {:induction false} SmallHasZeros(s: seq<Word>, n: nat)
    requires Val(s) < Pow(n)
    ensures forall k :: n <= k < |s| ==> s[k] == 0
  {
    if |s| > n {
      var k := |s| - 1;
      ValBound(s[..k]);
      PowMono(n, k);
      if s[k] > 0 { MulMono(1, s[k], Pow(k)); }
      SmallHasZeros(s[..k], n);
    }
  }

  lemma ZeroTail(s: seq<Word>, n: nat)
    requires n <= |s| && forall k :: n <= k < |s| ==> s[k] == 0
    ensures Val(s) == Val(s[..n])
  {
    ValSplit(s, n);
    ValZeros(s[n..]);
  }

  // If the words are below v * W^j, those from j on are below v.
  lemma TailBelow(s: seq<Word>, j: nat, v: int)
    requires j <= |s| && Val(s) < v * Pow(j)
    ensures Val(s[j..]) < v
  {
    hide *;
    ValSplit(s, j);
    ValBound(s[..j]);
    LowPartAside(Val(s[..j]), Val(s[j..]), v, Pow(j));
  }

  lemma LowPartAside(low: int, high: int, v: int, p: int)
    requires low >= 0 && p >= 0 && low + p * high < v * p
    ensures high < v
  {
    assert p * high == high * p;
    CancelLt(high, v, p);
  }

  // ---- views ------------------------------------------------------------------

  // data[off .. off + len]; cap counts the words the holder may reuse.
  datatype Nat = Nat(data: array<Word>, off: nat, len: nat, cap: nat)

  ghost predicate InBounds(x: Nat) {
    x.off + x.len <= x.data.Length
  }

  // A view whose cap words may all be used
  ghost predicate Storage(z: Nat) {
    z.len <= z.cap && z.off + z.cap <= z.data.Length
  }

  // The first n words of a view
  function First(x: Nat, n: nat): (s: seq<Word>)
    requires x.off + n <= x.data.Length
    reads x.data
    ensures |s| == n
    ensures forall k {:trigger s[k]} :: 0 <= k < n ==> s[k] == x.data[x.off + k]
  {
    x.data[x.off..x.off + n]
  }

  function Words(x: Nat): (s: seq<Word>)
    requires InBounds(x)
    reads x.data
  {
    First(x, x.len)
  }

  // The n words of a view from index i on
  function Block(x: Nat, i: nat, n: nat): (s: seq<Word>)
    requires x.off + i + n <= x.data.Length
    reads x.data
    ensures |s| == n
    ensures forall k {:trigger s[k]} :: 0 <= k < n ==> s[k] == x.data[x.off + i + k]
  {
    x.data[x.off + i..x.off + i + n]
  }

  // natPart: a view of the same storage
  function Part(p: Nat, from: nat, to: nat): Nat
    requires from <= to
  {
    Nat(p.data, p.off + from, to - from, to - from)
  }

  // It has those words, and no others to use.
  lemma PartIs(p: Nat, from: nat, to: nat)
    requires InBounds(p) && from <= to <= p.len
    ensures var t := Part(p, from, to);
      && Storage(t) && InBounds(t) && t.data == p.data && t.cap == t.len
      && Words(t) == Words(p)[from..to]
  {
    assert Words(p)[from..to] == p.data[p.off + from..p.off + to];
  }

  lemma PartBlock(z: Nat, from: nat, to: nat, i: nat, n: nat)
    requires from <= to && z.off + from + i + n <= z.data.Length
    ensures Block(Part(z, from, to), i, n) == Block(z, from + i, n)
    ensures i == 0 ==> First(Part(z, from, to), n) == Block(z, from, n)
  {
    assert (z.off + from) + i == z.off + (from + i);
  }

  // Of the array a, only positions lo .. hi have changed.
  twostate predicate OnlyWithin(a: array<Word>, lo: int, hi: int)
    reads a
  {
    forall k :: 0 <= k < a.Length && (k < lo || hi <= k) ==> a[k] == old(a[k])
  }

  // Every block of z outside its words lo .. hi is what it was.
  twostate predicate BlocksKept(z: Nat, lo: nat, hi: nat)
    requires InBounds(z)
    reads z.data
  {
    forall i: nat, n: nat {:trigger Block(z, i, n)} ::
      i + n <= z.len && (i + n <= lo || hi <= i) ==> Block(z, i, n) == old(Block(z, i, n))
  }

  // Writing upwards through n words of z never overwrites a word of x before it is read.
  ghost predicate ReadsAhead(z: Nat, x: Nat, n: nat) {
    x.data != z.data || z.off <= x.off || x.off + n <= z.off
  }

  ghost predicate Disjoint(z: Nat, n: nat, x: Nat, m: nat) {
    x.data != z.data || x.off + m <= z.off || z.off + n <= x.off
  }

  lemma TakeAll<T>(s: seq<T>)
    ensures s[..|s|] == s
  {}

  function Min(a: nat, b: nat): nat { if a <= b then a else b }

  function Max(a: nat, b: nat): nat { if a >= b then a else b }

  function Min3(a: nat, b: nat, c: nat): nat { Min(a, Min(b, c)) }

  // ---- allocation, natNorm, natCmp ----------------------------------------------

  // natNewLen: calloc'ed words
  method NewLen(len: nat) returns (z: Nat)
    ensures fresh(z.data) && z.off == 0 && z.len == z.cap == len == z.data.Length
    ensures forall k :: 0 <= k < len ==> z.data[k] == 0
    ensures Val(Words(z)) == 0
  {
    var data := new Word[len](_ => 0);
    z := Nat(data, 0, len, len);
    ValZeros(Words(z));
  }

  // natNew: one word in a buffer of eight, even for the value 0
  method NewWord(v: Word) returns (z: Nat)
    ensures fresh(z.data) && z.off == 0 && z.len == 1 && z.cap == 8 == z.data.Length
    ensures Words(z) == [v]
  {
    z := NewLen(8);
    z.data[0] := v;
    z := z.(len := 1);
  }

  ghost predicate Normal(s: seq<Word>) {
    |s| > 0 ==> s[|s| - 1] != 0
  }

  // Number of words left once leading zeros are dropped
  function NormLen(s: seq<Word>): (n: nat)
    ensures n <= |s|
  {
    if |s| > 0 && s[|s| - 1] == 0 then NormLen(s[..|s| - 1]) else |s|
  }

  lemma {:induction false} NormLenMeans(s: seq<Word>)
    ensures Normal(s[..NormLen(s)])
    ensures Val(s[..NormLen(s)]) == Val(s)
    ensures forall k :: NormLen(s) <= k < |s| ==> s[k] == 0
  {
    if |s| > 0 && s[|s| - 1] == 0 {
      var t := s[..|s| - 1];
      NormLenMeans(t);
      assert s[..NormLen(s)] == t[..NormLen(t)];
    } else {
      TakeAll(s);
    }
  }

  method NatNorm(p: Nat) returns (r: Nat)
    requires InBounds(p)
    ensures r == p.(len := NormLen(Words(p)))
    ensures InBounds(r) && r.len <= p.len && Normal(Words(r)) && Val(Words(r)) == Val(Words(p))
  {
    ghost var s := Words(p);
    var i := p.len;
    TakeAll(s);
    while i > 0 && p.data[p.off + i - 1] == 0
      invariant 0 <= i <= p.len && NormLen(s[..i]) == NormLen(s)
    {
      assert s[..i][..i - 1] == s[..i - 1];
      i := i - 1;
    }
    assert i > 0 ==> s[..i][i - 1] == p.data[p.off + i - 1];
    r := p.(len := i);
    NormLenMeans(s);
    assert Words(r) == s[..NormLen(s)];
  }

  function Order(a: int, b: int): int { if a < b then -1 else if a > b then 1 else 0 }

  method NatCmp(x: Nat, y: Nat) returns (c: int)
    requires InBounds(x) && InBounds(y)
    ensures c == if x.len == y.len then Order(Val(Words(x)), Val(Words(y))) else Order(x.len, y.len)
  {
    var m, n := x.len, y.len;
    ghost var xs, ys := Words(x), Words(y);
    if m != n || m == 0 {
      if m < n { return -1; }
      if m > n { return 1; }
      assert xs == ys;
      return 0;
    }
    var i := m - 1;
    while i > 0 && x.data[x.off + i] == y.data[y.off + i]
      invariant 0 <= i < m && xs[i + 1..] == ys[i + 1..]
    {
      assert xs[i..] == [xs[i]] + xs[i + 1..] && ys[i..] == [ys[i]] + ys[i + 1..];
      i := i - 1;
    }
    TopDigitDecides(xs, ys, i);
    if x.data[x.off + i] < y.data[y.off + i] { return -1; }
    if x.data[x.off + i] > y.data[y.off + i] { return 1; }
    return 0;
  }

  // The highest differing word decides the comparison.
  lemma TopDigitDecides(xs: seq<Word>, ys: seq<Word>, i: nat)
    requires |xs| == |ys| && i < |xs| && xs[i + 1..] == ys[i + 1..]
    requires xs[i] == ys[i] ==> i == 0
    ensures Order(Val(xs), Val(ys)) == Order(xs[i], ys[i])
  {
    ValSplit(xs, i + 1);
    ValSplit(ys, i + 1);
    ValPrefix(xs, i);
    ValPrefix(ys, i);
    ValBound(xs[..i]);
    ValBound(ys[..i]);
    if i == 0 { ValNil(xs); ValNil(ys); PowZero(); }
    DigitOrder(Val(xs[..i]), xs[i], Val(ys[..i]), ys[i], Pow(i));
  }

  lemma DigitOrder(r: int, a: int, r': int, b: int, p: int)
    requires 0 <= r < p && 0 <= r' < p
    requires a == b ==> r == r'
    ensures Order(r + a * p, r' + b * p) == Order(a, b)
  {
    if a < b { MulMono(a + 1, b, p); assert (a + 1) * p == a * p + p; }
    if b < a { MulMono(b + 1, a, p); assert (b + 1) * p == b * p + p; }
  }

  lemma ValNil(s: seq<Word>)
    ensures Val(s[..0]) == 0
  {}

  lemma PowZero()
    ensures Pow(0) == 1
  {}

  // A normalised number of n words is at least W^(n-1), so length decides first.
  lemma NormalLow(s: seq<Word>)
    requires Normal(s) && |s| > 0
    ensures Pow(|s| - 1) <= Val(s)
  {
    var n := |s| - 1;
    ValBound(s[..n]);
    MulMono(1, s[n], Pow(n));
  }

  lemma LongerIsLarger(s: seq<Word>, t: seq<Word>)
    requires Normal(s) && |t| < |s|
    ensures Val(t) < Val(s)
  {
    NormalLow(s);
    ValBound(t);
    PowMono(|t|, |s| - 1);
  }

  // What natCmp computes is the comparison of the values as soon as the longer operand is normalised.
  lemma CmpIsValueOrder(xs: seq<Word>, ys: seq<Word>)
    requires |xs| > |ys| ==> Normal(xs)
    requires |ys| > |xs| ==> Normal(ys)
    ensures (if |xs| == |ys| then Order(Val(xs), Val(ys)) else Order(|xs|, |ys|)) == Order(Val(xs), Val(ys))
  {
    if |xs| > |ys| { LongerIsLarger(xs, ys); }
    if |ys| > |xs| { LongerIsLarger(ys, xs); }
  }

  // The number of words of x without leading zeros
  function WordLen(x: int): (n: nat)
    decreases x
  {
    if x <= 0 then 0 else
    FewerWords(x);
    1 + WordLen(x / W)
  }

  lemma FewerWords(x: int)
    requires x > 0
    ensures 0 <= x / W < x
  {}

  lemma {:induction false} WordLenIs(x: int, n: nat)
    requires if n == 0 then x == 0 else Pow(n - 1) <= x < Pow(n)
    ensures WordLen(x) == n
  {
    if n > 0 {
      NextPow(n - 1);
      if n == 1 { PowZero(); } else { NextPow(n - 2); }
      hide Pow;
      DivBounds(x, W);
      WordLenIs(x / W, n - 1);
    }
  }

  lemma LenOfNormal(s: seq<Word>)
    requires Normal(s)
    ensures Val(s) >= 0 && WordLen(Val(s)) == |s| && (Val(s) == 0 <==> |s| == 0)
  {
    ValBound(s);
    if |s| > 0 { NormalLow(s); } else { ValEmpty(s); }
    hide Val;
    WordLenIs(Val(s), |s|);
  }

  // The n low words of x
  function WordsOf(x: int, n: nat): (s: seq<Word>)
    ensures |s| == n
    decreases n
  {
    if n == 0 then [] else [x % W] + WordsOf(x / W, n - 1)
  }

  lemma {:induction false} WordsOfVal(s: seq<Word>)
    ensures WordsOf(Val(s), |s|) == s
  {
    if |s| > 0 {
      ValCons(s);
      WordsOfVal(s[1..]);
      assert Val(s) % W == s[0] && Val(s) / W == Val(s[1..]);
      assert s == [s[0]] + s[1..];
    }
  }

  lemma {:induction false} ValOfWords(x: int, n: nat)
    requires 0 <= x < Pow(n)
    ensures Val(WordsOf(x, n)) == x
    decreases n
  {
    if n == 0 {
      PowZero();
    } else {
      NextPow(n - 1);
      ValOfWords(x / W, n - 1);
      var s := WordsOf(x, n);
      assert s[1..] == WordsOf(x / W, n - 1);
      ValCons(s);
    }
  }
}
