/** cmake/bigint/src/natmul.c, first part: word-by-array products and schoolbook multiplication. */
module MulBasic {
  import opened Bits
  import opened Base
  import opened Nats

  // (low, high) of x * y + c
  function MulAddWWW(x: Word, y: Word, c: Word): (r: (Word, Word))
    ensures r.0 + W * r.1 == x * y + c
  {
    hide U64Mul, U64Add;
    var p := U64Mul(x, y);
    var s := U64Add(p.0, c, 0);
    ProductBound(x, y);
    HighFits(p.0, p.1, x * y, c, s.0, s.1);
    (s.0, Add64(p.1, s.1))
  }

  lemma HighFits(p0: Word, p1: Word, xy: int, c: Word, s0: Word, s1: Word)
    requires p0 + W * p1 == xy <= (W - 1) * (W - 1) && s0 + W * s1 == p0 + c && s1 <= 1
    ensures Add64(p1, s1) == p1 + s1
  {
    AddFits(p1, s1);
  }

  lemma ProductBound(x: Word, y: Word)
    ensures 0 <= x * y <= (W - 1) * (W - 1)
  {
    MulMono(0, x, y);
    MulMono(x, W - 1, y);
  }

  // ---- mulAddVWW -----------------------------------------------------------------------

  // zs with outgoing word c is xs * y + r.
  ghost predicate Scaled(zs: seq<Word>, c: int, xs: seq<Word>, y: int, r: int) {
    |zs| == |xs| && Val(zs) + c * Pow(|zs|) == Val(xs) * y + r
  }

  lemma ScaledStart(zs: seq<Word>, xs: seq<Word>, y: int, r: int)
    requires |zs| == |xs| == 0
    ensures Scaled(zs, r, xs, y, r)
  {}

  lemma ScaledStep(zs: seq<Word>, c: int, xs: seq<Word>, i: nat, y: int, r: int, z: Word, c': int)
    requires i < |xs| && Scaled(zs, c, xs[..i], y, r) && z + W * c' == xs[i] * y + c
    ensures Scaled(zs + [z], c', xs[..i + 1], y, r)
  {
    ValSnoc(zs, z);
    ValPrefix(xs, i);
    NextPow(i);
    hide Val, Pow;
    ScaleStep(Val(zs), c, Val(xs[..i]), y, r, z, c', xs[i], Pow(i));
  }

  lemma ScaleStep(zv: int, c: int, xv: int, y: int, r: int, z: int, c': int, x: int, p: int)
    requires zv + c * p == xv * y + r && z + W * c' == x * y + c
    ensures (zv + z * p) + c' * (W * p) == (xv + x * p) * y + r
  {
    assert (z + W * c') * p == z * p + c' * (W * p);
    assert (x * y + c) * p == (x * p) * y + c * p;
    assert (xv + x * p) * y == xv * y + (x * p) * y;
  }

  method MulAddVWW(z: Nat, x: Nat, y: Word, r: Word) returns (c: Word)
    requires var n := Min(z.len, x.len);
      z.off + n <= z.data.Length && x.off + n <= x.data.Length && ReadsAhead(z, x, n)
    modifies z.data
    ensures var n := Min(z.len, x.len);
      OnlyWithin(z.data, z.off, z.off + n) && Scaled(First(z, n), c, old(First(x, n)), y, r)
  {
    hide Scaled, MulAddWWW;
    ghost var n := Min(z.len, x.len);
    ghost var xs := First(x, n);
    c := r;
    ScaledStart(First(z, 0), xs[..0], y, r);
    var i := 0;
    while i < z.len && i < x.len
      invariant i <= n
      invariant OnlyWithin(z.data, z.off, z.off + i)
      invariant Scaled(First(z, i), c, xs[..i], y, r)
    {
      assert x.data[x.off + i] == xs[i];
      ghost var before := First(z, i);
      var d := MulAddWWW(x.data[x.off + i], y, c);
      ScaledStep(before, c, xs, i, y, r, d.0, d.1);
      z.data[z.off + i] := d.0;
      c := d.1;
      assert First(z, i + 1) == before + [d.0];
      i := i + 1;
    }
    TakeAll(xs);
  }

  // ---- addMulVVW -----------------------------------------------------------------------

  // zs with outgoing word c is z0 + xs * y.
  ghost predicate Accumulated(zs: seq<Word>, c: int, z0: seq<Word>, xs: seq<Word>, y: int) {
    |zs| == |z0| == |xs| && Val(zs) + c * Pow(|zs|) == Val(z0) + Val(xs) * y
  }

  lemma AccumulatedStart(zs: seq<Word>, z0: seq<Word>, xs: seq<Word>, y: int)
    requires |zs| == |z0| == |xs| == 0
    ensures Accumulated(zs, 0, z0, xs, y)
  {}

  lemma AccumulatedStep(zs: seq<Word>, c: int, z0: seq<Word>, xs: seq<Word>, i: nat, y: int, z: Word, c': int)
    requires i < |xs| == |z0| && Accumulated(zs, c, z0[..i], xs[..i], y)
    requires z + W * c' == xs[i] * y + z0[i] + c
    ensures Accumulated(zs + [z], c', z0[..i + 1], xs[..i + 1], y)
  {
    ValSnoc(zs, z);
    ValPrefix(xs, i);
    ValPrefix(z0, i);
    NextPow(i);
    hide Val, Pow;
    AccumulateStep(Val(zs), c, Val(z0[..i]), Val(xs[..i]), y, z, c', xs[i], z0[i], Pow(i));
  }

  lemma AccumulateStep(zv: int, c: int, z0v: int, xv: int, y: int, z: int, c': int, x: int, z0: int, p: int)
    requires zv + c * p == z0v + xv * y && z + W * c' == x * y + z0 + c
    ensures (zv + z * p) + c' * (W * p) == (z0v + z0 * p) + (xv + x * p) * y
  {
    assert (z + W * c') * p == z * p + c' * (W * p);
    assert (x * y + z0 + c) * p == (x * p) * y + z0 * p + c * p;
    assert (xv + x * p) * y == xv * y + (x * p) * y;
  }

  // The two carries of one addMulVVW step fit one word.
  function MulAddTwo(x: Word, y: Word, z: Word, c: Word): (r: (Word, Word))
    ensures r.0 + W * r.1 == x * y + z + c
  {
    hide MulAddWWW, U64Add;
    var p := MulAddWWW(x, y, z);
    var s := U64Add(p.0, c, 0);
    ProductBound(x, y);
    (s.0, Add64(s.1, p.1))
  }

  method AddMulVVW(z: Nat, x: Nat, y: Word) returns (c: Word)
    requires var n := Min(z.len, x.len);
      z.off + n <= z.data.Length && x.off + n <= x.data.Length && Disjoint(z, n, x, n)
    modifies z.data
    ensures var n := Min(z.len, x.len);
      OnlyWithin(z.data, z.off, z.off + n)
      && Accumulated(First(z, n), c, old(First(z, n)), old(First(x, n)), y)
  {
    hide Accumulated, MulAddTwo;
    ghost var n := Min(z.len, x.len);
    ghost var xs, z0 := First(x, n), First(z, n);
    c := 0;
    AccumulatedStart(First(z, 0), z0[..0], xs[..0], y);
    var i := 0;
    while i < z.len && i < x.len
      invariant i <= n
      invariant OnlyWithin(z.data, z.off, z.off + i)
      invariant Accumulated(First(z, i), c, z0[..i], xs[..i], y)
    {
      assert x.data[x.off + i] == xs[i] && z.data[z.off + i] == z0[i];
      ghost var before := First(z, i);
      var d := MulAddTwo(x.data[x.off + i], y, z.data[z.off + i], c);
      AccumulatedStep(before, c, z0, xs, i, y, d.0, d.1);
      z.data[z.off + i] := d.0;
      c := d.1;
      assert First(z, i + 1) == before + [d.0];
      i := i + 1;
    }
    TakeAll(xs);
    TakeAll(z0);
  }

  // ---- basicMul ------------------------------------------------------------------------

  method NatClear(x: Nat)
    requires InBounds(x)
    modifies x.data
    ensures OnlyWithin(x.data, x.off, x.off + x.len)
    ensures forall k :: x.off <= k < x.off + x.len ==> x.data[k] == 0
    ensures Val(Words(x)) == 0
  {
    for i := 0 to x.len
      invariant OnlyWithin(x.data, x.off, x.off + i)
      invariant forall k :: x.off <= k < x.off + i ==> x.data[k] == 0
    {
      x.data[x.off + i] := 0;
    }
    ValZeros(Words(x));
  }

  // zs, one word longer than the product of xs and the first i words of ys, holds it.
  ghost predicate PartialProduct(zs: seq<Word>, xs: seq<Word>, ys: seq<Word>, i: nat) {
    i <= |ys| && Val(zs) == Val(xs) * Val(ys[..i])
  }

  // Row i of the schoolbook product: the window of |xs| words at i gains xs * ys[i].
  lemma ProductRow(low: seq<Word>, w0: seq<Word>, w1: seq<Word>, c: Word, xs: seq<Word>, ys: seq<Word>, i: nat)
    requires i < |ys| && |low| == i && PartialProduct(low + w0, xs, ys, i)
    requires Accumulated(w1, c, w0, xs, ys[i])
    ensures PartialProduct(low + (w1 + [c]), xs, ys, i + 1)
  {
    ValAppend(low, w0);
    ValAppend(low, w1 + [c]);
    ValSnoc(w1, c);
    ValPrefix(ys, i);
    hide Val, Pow;
    RowAlgebra(Val(low), Val(w0), Val(w1), c, Pow(|w1|), Val(xs), ys[i], Val(ys[..i]), Pow(i));
  }

  lemma RowAlgebra(low: int, w0: int, w1: int, c: int, q: int, x: int, y: int, yv: int, p: int)
    requires low + p * w0 == x * yv && w1 + c * q == w0 + x * y
    ensures low + p * (w1 + c * q) == x * (yv + y * p)
  {
    assert p * (w0 + x * y) == p * w0 + x * (y * p);
    assert x * (yv + y * p) == x * yv + x * (y * p);
  }

  lemma ProductSkip(zs: seq<Word>, xs: seq<Word>, ys: seq<Word>, i: nat)
    requires i < |ys| && PartialProduct(zs, xs, ys, i) && ys[i] == 0
    ensures PartialProduct(zs + [0], xs, ys, i + 1)
  {
    ValSnoc(zs, 0);
    ValPrefix(ys, i);
  }

  lemma ProductStart(zs: seq<Word>, xs: seq<Word>, ys: seq<Word>)
    requires |zs| == |xs| && forall k {:trigger zs[k]} :: 0 <= k < |zs| ==> zs[k] == 0
    ensures PartialProduct(zs, xs, ys, 0)
  {
    ValZeros(zs);
  }

  method BasicMul(z: Nat, x: Nat, y: Nat)
    requires InBounds(z) && InBounds(x) && InBounds(y) && x.len + y.len <= z.len
    requires Disjoint(z, x.len + y.len, x, x.len) && Disjoint(z, x.len + y.len, y, y.len)
    modifies z.data
    ensures OnlyWithin(z.data, z.off, z.off + x.len + y.len)
    ensures Val(First(z, x.len + y.len)) == Val(old(Words(x))) * Val(old(Words(y)))
  {
    hide PartialProduct, Val, Pow;
    ghost var xs, ys := Words(x), Words(y);
    NatClear(Part(z, 0, x.len + y.len));
    assert Words(x) == xs && Words(y) == ys;
    MulRows(z, x, y, xs, ys);
    PartialProductAll(First(z, x.len + y.len), xs, ys);
  }

  // The loop of basicMul over the cleared words
  method MulRows(z: Nat, x: Nat, y: Nat, ghost xs: seq<Word>, ghost ys: seq<Word>)
    requires InBounds(z) && InBounds(x) && InBounds(y) && x.len + y.len <= z.len
    requires Disjoint(z, x.len + y.len, x, x.len) && Disjoint(z, x.len + y.len, y, y.len)
    requires xs == Words(x) && ys == Words(y)
    requires forall k :: z.off <= k < z.off + x.len + y.len ==> z.data[k] == 0
    modifies z.data
    ensures OnlyWithin(z.data, z.off, z.off + x.len + y.len)
    ensures PartialProduct(First(z, x.len + y.len), xs, ys, y.len)
  {
    hide PartialProduct;
    ProductStart(First(z, x.len), xs, ys);
    for i := 0 to y.len
      invariant OnlyWithin(z.data, z.off, z.off + x.len + i)
      invariant xs == Words(x) && ys == Words(y)
      invariant PartialProduct(First(z, x.len + i), xs, ys, i)
    {
      MulRow(z, x, y, i, xs, ys);
    }
  }

  lemma PartialProductAll(zs: seq<Word>, xs: seq<Word>, ys: seq<Word>)
    requires PartialProduct(zs, xs, ys, |ys|)
    ensures Val(zs) == Val(xs) * Val(ys)
  {
    TakeAll(ys);
  }

  // One round of the loop of basicMul
  method MulRow(z: Nat, x: Nat, y: Nat, i: nat, ghost xs: seq<Word>, ghost ys: seq<Word>)
    requires InBounds(z) && InBounds(x) && InBounds(y) && x.len + y.len <= z.len
    requires Disjoint(z, x.len + y.len, x, x.len) && Disjoint(z, x.len + y.len, y, y.len)
    requires xs == Words(x) && ys == Words(y) && i < y.len
    requires z.data[z.off + x.len + i] == 0 && PartialProduct(First(z, x.len + i), xs, ys, i)
    modifies z.data
    ensures OnlyWithin(z.data, z.off + i, z.off + x.len + i + 1)
    ensures PartialProduct(First(z, x.len + i + 1), xs, ys, i + 1)
  {
    hide Accumulated, PartialProduct, Val, Pow;
    if y.data[y.off + i] != 0 {
      RowAdded(z, x, y.data[y.off + i], i, xs, ys);
    } else {
      assert First(z, x.len + i + 1) == First(z, x.len + i) + [0];
      ProductSkip(First(z, x.len + i), xs, ys, i);
    }
  }

  method RowAdded(z: Nat, x: Nat, d: Word, i: nat, ghost xs: seq<Word>, ghost ys: seq<Word>)
    requires InBounds(z) && InBounds(x) && x.len + i < z.len && Disjoint(z, x.len + i + 1, x, x.len)
    requires xs == Words(x) && i < |ys| && ys[i] == d && PartialProduct(First(z, x.len + i), xs, ys, i)
    modifies z.data
    ensures OnlyWithin(z.data, z.off + i, z.off + x.len + i + 1)
    ensures PartialProduct(First(z, x.len + i + 1), xs, ys, i + 1)
  {
    hide Accumulated, PartialProduct, Val, Pow;
    ghost var low, w0 := First(z, i), First(Part(z, i, i + x.len), x.len);
    JoinRow(z, i, x.len);
    var c := AddMulVVW(Part(z, i, i + x.len), x, d);
    ghost var w1 := First(Part(z, i, i + x.len), x.len);
    z.data[z.off + x.len + i] := c;
    assert First(z, i) == low && First(Part(z, i, i + x.len), x.len) == w1;
    JoinRow(z, i, x.len);
    ProductRow(low, w0, w1, c, xs, ys, i);
  }

  lemma JoinRow(z: Nat, i: nat, m: nat)
    requires InBounds(z) && m + i < z.len
    ensures var low, row := First(z, i), First(Part(z, i, i + m), m);
      First(z, m + i) == low + row && First(z, m + i + 1) == low + (row + [z.data[z.off + m + i]])
  {}
}
