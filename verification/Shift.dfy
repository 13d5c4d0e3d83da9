/** shlVU and shrVU of cmake/bigint/src/natdiv.c: multiplication and division by a power of two. */
module Shift {
  import opened Bits
  import opened Base
  import opened Nats

  // x << s | below >> (64 - s)
  function ShlWord(x: Word, below: Word, s: nat): Word
    requires 0 < s < 64
  {
    ShlParts(x, below, s);
    BitOr(Shl(x, s), Shr(below, 64 - s))
  }

  // x >> s | above << (64 - s)
  function ShrWord(x: Word, above: Word, s: nat): Word
    requires 0 < s < 64
  {
    ShrParts(x, above, s);
    BitOr(Shr(x, s), Shl(above, 64 - s))
  }

  lemma ShlParts(x: Word, below: Word, s: nat)
    requires 0 < s < 64
    ensures BitOr(Shl(x, s), Shr(below, 64 - s)) == Shl(x, s) + Shr(below, 64 - s) < W
    ensures Shl(x, s) + W * Shr(x, 64 - s) == x * Pow2(s)
  {
    hide Pow2, BitOr;
    Pow2Consts();
    Pow2Add(64 - s, s);
    var c, p := Pow2(64 - s), Pow2(s);
    DivBounds(x, c);
    DivBounds(below, c);
    BelowQuotient(below, c, p);
    var h, l := x / c, x % c;
    assert x == h * c + l;
    SplitShift(x, h, l, c, p);
    OrIsAdd(l, below / c, s);
    ShrIsDiv(x, 64 - s);
    ShrIsDiv(below, 64 - s);
    MulMono(l + 1, c, p);
    assert (l + 1) * p == l * p + p;
  }

  lemma SplitShift(x: int, h: int, l: int, c: int, p: int)
    requires c > 0 && p > 0 && c * p == W && x == h * c + l && 0 <= l < c
    ensures x * p == h * W + l * p && 0 <= l * p < W
    ensures (x * p) % W == l * p
  {
    assert x * p == h * (c * p) + l * p;
    MulMono(l + 1, c, p);
    assert (l + 1) * p == l * p + p;
    MulMono(0, l, p);
    DivModUnique(x * p, W, h, l * p);
  }

  lemma ShrParts(x: Word, above: Word, s: nat)
    requires 0 < s < 64
    ensures BitOr(Shr(x, s), Shl(above, 64 - s)) == Shr(x, s) + Shl(above, 64 - s) < W
    ensures Shr(x, s) * Pow2(s) + x % Pow2(s) == x
    ensures Shl(above, 64 - s) * Pow2(s) == (above % Pow2(s)) * W
  {
    hide Pow2, BitOr, Shl, Shr;
    Pow2Consts();
    Pow2Add(64 - s, s);
    ShrIsDiv(x, s);
    ShlIsMod(above, 64 - s);
    ShrFields(x, above, Pow2(64 - s), Pow2(s));
    var l := above % Pow2(s);
    OrCommutes(x / Pow2(s), l * Pow2(64 - s));
    OrIsAdd(l, x / Pow2(s), 64 - s);
  }

  lemma ShlIsMod(x: Word, s: nat)
    requires s < 64
    ensures Shl(x, s) == (x * Pow2(s)) % W
  {}

  lemma ShrFields(x: Word, above: Word, c: int, p: int)
    requires c > 0 && p > 0 && c * p == W
    ensures 0 <= x / p < c && (x / p) * p + x % p == x
    ensures var l := above % p; 0 <= l && (above * c) % W == l * c && (l * c) * p == l * W && l * c + x / p < W
  {
    assert c * p == p * c;
    BelowQuotient(x, p, c);
    DivBounds(x, p);
    assert x == (x / p) * p + x % p;
    var h, l := above / p, above % p;
    assert above == h * p + l;
    SplitShift(above, h, l, p, c);
    MulMono(l + 1, p, c);
    assert (l + 1) * c == l * c + c;
    assert (l * c) * p == l * (c * p);
  }

  // ---- shlVU -------------------------------------------------------------------------

  function ShlWords(xs: seq<Word>, s: nat): (zs: seq<Word>)
    requires 0 < s < 64
    ensures |zs| == |xs|
  {
    seq(|xs|, i requires 0 <= i < |xs| => ShlWord(xs[i], if i > 0 then xs[i - 1] else 0, s))
  }

  // The bits shifted out of the top word
  function ShlOut(xs: seq<Word>, s: nat): Word
    requires 0 < s < 64
  {
    if |xs| == 0 then 0 else ShrFits(xs[|xs| - 1], 64 - s); Shr(xs[|xs| - 1], 64 - s)
  }

  lemma ShrFits(x: Word, s: nat)
    ensures Shr(x, s) <= x
  {}

  lemma {:induction false} ShlValue(xs: seq<Word>, s: nat)
    requires 0 < s < 64
    ensures Val(ShlWords(xs, s)) + ShlOut(xs, s) * Pow(|xs|) == Val(xs) * Pow2(s)
  {
    hide Pow2, ShlWord;
    if |xs| > 0 {
      var n := |xs| - 1;
      ShlValue(xs[..n], s);
      assert ShlWords(xs, s)[..n] == ShlWords(xs[..n], s);
      ShlTop(xs, s);
      NextPow(n);
      hide Val, Pow, ShlWords, ShlOut;
      ShlAlgebra(Val(ShlWords(xs[..n], s)), ShlOut(xs[..n], s), Pow(n), Val(xs[..n]), Pow2(s), xs[n],
                 ShlWords(xs, s)[n], ShlOut(xs, s));
    }
  }

  lemma ShlTop(xs: seq<Word>, s: nat)
    requires 0 < s < 64 && |xs| > 0
    ensures var n := |xs| - 1;
      ShlWords(xs, s)[n] + W * ShlOut(xs, s) == xs[n] * Pow2(s) + ShlOut(xs[..n], s)
  {
    hide Pow2;
    var n := |xs| - 1;
    ShlParts(xs[n], if n > 0 then xs[n - 1] else 0, s);
    ShrOfZero(64 - s);
  }

  lemma ShrOfZero(s: nat)
    ensures Shr(0, s) == 0
  {
    DivModUnique(0, Pow2(s), 0, 0);
  }

  lemma ShlAlgebra(zv: int, o: int, p: int, xv: int, t: int, x: int, z: int, o': int)
    requires zv + o * p == xv * t && z + W * o' == x * t + o
    ensures (zv + z * p) + o' * (W * p) == (xv + x * p) * t
  {
    assert (z + W * o') * p == z * p + o' * (W * p);
    assert (x * t + o) * p == (x * p) * t + o * p;
    assert (xv + x * p) * t == xv * t + (x * p) * t;
  }

  // Writing downwards through n words of z never overwrites a word of x before it is read.
  ghost predicate ReadsBehind(z: Nat, x: Nat, n: nat) {
    x.data != z.data || x.off <= z.off || z.off + n <= x.off
  }

  // natCopy: the destination may be longer than the source
  method NatCopy(dst: Nat, src: Nat)
    requires InBounds(src) && dst.off + src.len <= dst.data.Length
    requires ReadsAhead(dst, src, src.len)
    modifies dst.data
    ensures OnlyWithin(dst.data, dst.off, dst.off + src.len)
    ensures First(dst, src.len) == old(Words(src))
  {
    ghost var xs := Words(src);
    for i := 0 to src.len
      invariant OnlyWithin(dst.data, dst.off, dst.off + i)
      invariant First(dst, i) == xs[..i]
    {
      assert src.data[src.off + i] == xs[i];
      ghost var before := First(dst, i);
      dst.data[dst.off + i] := src.data[src.off + i];
      assert First(dst, i + 1) == before + [xs[i]];
    }
  }

  // How many words shlVU works on: it copies x for s == 0, and otherwise writes all of z.
  function ShlCount(z: Nat, x: Nat, s: nat): nat { if s == 0 then x.len else z.len }

  method ShlVU(z: Nat, x: Nat, s: nat) returns (c: Word)
    requires var n := ShlCount(z, x, s);
      && z.off + n <= z.data.Length && x.off + n <= x.data.Length && s < 64
      && if s == 0 then ReadsAhead(z, x, n) else ReadsBehind(z, x, n)
    modifies z.data
    ensures var n := ShlCount(z, x, s);
      && OnlyWithin(z.data, z.off, z.off + n)
      && Val(First(z, n)) + c * Pow(n) == Val(old(First(x, n))) * Pow2(s)
    ensures c < Pow2(s)
  {
    hide Val, Pow, Pow2, ShlWord, ShlWords, ShlOut;
    ghost var xs := First(x, ShlCount(z, x, s));
    c := 0;
    if s == 0 {
      NatCopy(z, x);
      TimesOne(Val(xs));
      return;
    }
    if z.len == 0 {
      ValEmpty(xs);
      ValEmpty(First(z, 0));
      return;
    }
    ShrFits(x.data[x.off + z.len - 1], 64 - s);
    c := Shr(x.data[x.off + z.len - 1], 64 - s);
    ShlOutIs(xs, s);
    ShlLoop(z, x, s);
    ShlValue(xs, s);
  }

  lemma TimesOne(x: int)
    ensures x * Pow2(0) == x && Pow2(0) == 1
  {}

  lemma ShlOutIs(xs: seq<Word>, s: nat)
    requires 0 < s < 64 && |xs| > 0
    ensures ShlOut(xs, s) == Shr(xs[|xs| - 1], 64 - s) < Pow2(s)
  {
    hide Pow2;
    Pow2Consts();
    Pow2Add(64 - s, s);
    BelowQuotient(xs[|xs| - 1], Pow2(64 - s), Pow2(s));
    ShrIsDiv(xs[|xs| - 1], 64 - s);
  }

  method ShlLoop(z: Nat, x: Nat, s: nat)
    requires InBounds(z) && x.off + z.len <= x.data.Length && z.len > 0 && 0 < s < 64 && ReadsBehind(z, x, z.len)
    modifies z.data
    ensures OnlyWithin(z.data, z.off, z.off + z.len)
    ensures Words(z) == ShlWords(old(First(x, z.len)), s)
  {
    hide ShlWord, ShlWords, Shl, Shr, BitOr;
    ghost var xs := First(x, z.len);
    var i := z.len - 1;
    while i > 0
      invariant 0 <= i < z.len
      invariant OnlyWithin(z.data, z.off + i + 1, z.off + z.len)
      invariant forall k :: i < k < z.len ==> z.data[z.off + k] == ShlWord(xs[k], xs[k - 1], s)
    {
      var high: Word, low: Word := x.data[x.off + i], x.data[x.off + i - 1];
      assert high == xs[i] && low == xs[i - 1];
      z.data[z.off + i] := ShlWord(high, low, s);
      i := i - 1;
    }
    assert x.data[x.off] == xs[0];
    z.data[z.off] := Shl(x.data[x.off], s);
    ShlDone(Words(z), xs, s);
  }

  lemma ShlDone(ws: seq<Word>, xs: seq<Word>, s: nat)
    requires |ws| == |xs| > 0 && 0 < s < 64 && ws[0] == Shl(xs[0], s)
    requires forall k :: 0 < k < |xs| ==> ws[k] == ShlWord(xs[k], xs[k - 1], s)
    ensures ws == ShlWords(xs, s)
  {
    hide ShlWord, Shl;
    ShlNoBelow(xs[0], s);
  }

  lemma ShlNoBelow(x: Word, s: nat)
    requires 0 < s < 64
    ensures ShlWord(x, 0, s) == Shl(x, s)
  {
    ShlParts(x, 0, s);
    ShrOfZero(64 - s);
  }

  // ---- shrVU -------------------------------------------------------------------------

  function ShrWords(xs: seq<Word>, s: nat): (zs: seq<Word>)
    requires 0 < s < 64
    ensures |zs| == |xs|
  {
    seq(|xs|, i requires 0 <= i < |xs| => ShrWord(xs[i], if i + 1 < |xs| then xs[i + 1] else 0, s))
  }

  lemma {:induction false} ShrValue(xs: seq<Word>, s: nat)
    requires 0 < s < 64
    ensures Val(ShrWords(xs, s)) * Pow2(s) + (if |xs| > 0 then xs[0] % Pow2(s) else 0) == Val(xs)
  {
    hide Pow2, ShrWord;
    if |xs| > 0 {
      var zs, t := ShrWords(xs, s), xs[1..];
      ShrValue(t, s);
      assert zs[1..] == ShrWords(t, s);
      ValCons(xs);
      ValCons(zs);
      var above: Word := if |xs| > 1 then xs[1] else 0;
      assert zs[0] == ShrWord(xs[0], above, s);
      ShrWordValue(xs[0], above, s);
      ModOfZero(s);
      hide Val, ShrWords;
      ShrAlgebra(Val(ShrWords(t, s)), Pow2(s), above % Pow2(s), Val(t), zs[0], xs[0], xs[0] % Pow2(s));
    }
  }

  lemma ShrWordValue(x: Word, above: Word, s: nat)
    requires 0 < s < 64
    ensures ShrWord(x, above, s) * Pow2(s) == x - x % Pow2(s) + (above % Pow2(s)) * W
  {
    hide Pow2, BitOr, Shr, Shl;
    ShrParts(x, above, s);
    var a, b, p := Shr(x, s), Shl(above, 64 - s), Pow2(s);
    assert (a + b) * p == a * p + b * p;
  }

  lemma ModOfZero(s: nat)
    ensures 0 % Pow2(s) == 0
  {
    DivModUnique(0, Pow2(s), 0, 0);
  }

  lemma ShrAlgebra(zv: int, p: int, r1: int, tv: int, z: int, x: int, r: int)
    requires zv * p + r1 == tv && z * p == x - r + r1 * W
    ensures (z + W * zv) * p + r == x + W * tv
  {
    assert (z + W * zv) * p == z * p + W * (zv * p);
  }

  method ShrVU(z: Nat, x: Nat, s: nat) returns (c: Word)
    requires InBounds(z) && InBounds(x) && z.len == x.len && s < 64
    requires ReadsAhead(z, x, z.len)
    modifies z.data
    ensures OnlyWithin(z.data, z.off, z.off + z.len)
    ensures var v := Val(old(Words(x)));
      Val(Words(z)) * Pow2(s) <= v < Val(Words(z)) * Pow2(s) + Pow2(s)
    ensures c == if s > 0 && z.len > 0 then Shl(old(Words(x))[0], 64 - s) else 0
  {
    hide Val, Pow2, ShrWord, ShrWords, Shl;
    ghost var xs := Words(x);
    c := 0;
    if s == 0 {
      NatCopy(z, x);
      TimesOne(Val(xs));
      return;
    }
    ShrValue(xs, s);
    if z.len == 0 {
      ValEmpty(Words(z));
      ValEmpty(xs);
      return;
    }
    c := Shl(x.data[x.off], 64 - s);
    ShrLoop(z, x, s);
    ModBelow(xs[0], Pow2(s));
  }

  lemma ModBelow(x: int, p: int)
    requires p > 0
    ensures 0 <= x % p < p
  {}

  method ShrLoop(z: Nat, x: Nat, s: nat)
    requires InBounds(z) && InBounds(x) && z.len == x.len > 0 && 0 < s < 64 && ReadsAhead(z, x, z.len)
    modifies z.data
    ensures OnlyWithin(z.data, z.off, z.off + z.len)
    ensures Words(z) == ShrWords(old(Words(x)), s)
  {
    hide ShrWord, Shl, Shr, BitOr;
    ghost var xs := Words(x);
    var i := 1;
    while i < z.len
      invariant 1 <= i <= z.len
      invariant OnlyWithin(z.data, z.off, z.off + i - 1)
      invariant forall k :: 0 <= k < i - 1 ==> z.data[z.off + k] == ShrWord(xs[k], xs[k + 1], s)
    {
      var high: Word, low: Word := x.data[x.off + i], x.data[x.off + i - 1];
      assert high == xs[i] && low == xs[i - 1];
      z.data[z.off + i - 1] := ShrWord(low, high, s);
      i := i + 1;
    }
    assert x.data[x.off + z.len - 1] == xs[z.len - 1];
    ShrNoAbove(xs[z.len - 1], s);
    z.data[z.off + z.len - 1] := Shr(x.data[x.off + z.len - 1], s);
    assert Words(z) == ShrWords(xs, s);
  }

  lemma ShrNoAbove(x: Word, s: nat)
    requires 0 < s < 64
    ensures ShrWord(x, 0, s) == Shr(x, s) < W
  {
    ShrParts(x, 0, s);
    ShrFits(x, s);
    NoWrap(0);
  }
}
