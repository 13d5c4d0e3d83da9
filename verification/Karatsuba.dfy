/** cmake/bigint/src/natmul.c, second part: Karatsuba multiplication in place, with the addVW and
    subVW of the code or the repaired ones. */
module KaratsubaMul {
  import opened Bits
  import opened Nats
  import opened NatAddSub
  import opened Ripples
  import opened KaratsubaValue
  import opened MulBasic
  import opened Shift

  // ---- karatsubaAdd, karatsubaSub -----------------------------------------------------------

  method KaratsubaAdd(z: Nat, x: Nat, n: nat, how: Ripple) returns (ghost carry: Word)
    requires InBounds(z) && InBounds(x) && n + n / 2 <= z.len && n <= x.len
    requires Disjoint(z, n + n / 2, x, n)
    modifies z.data
    ensures OnlyWithin(z.data, z.off, z.off + n + n / 2)
    ensures var zs, xs, zs' := old(First(z, n + n / 2)), old(First(x, n)), First(z, n + n / 2);
      && Val(zs') + carry * Pow(n + n / 2) == Val(zs) + Val(xs) + SumError(how, zs, xs)
      && Val(zs') == Added(how, Val(zs), Val(xs), n, n / 2)
      && (Val(zs) + Val(xs) < Pow(n + n / 2)
          ==> (Val(zs') == Val(zs) + Val(xs) <==> how.Repaired? || SumExact(zs, xs)))
  {
    hide Val, Pow, SumError, SumExact, Added;
    carry := AddThenRipple(z, x, n, n + n / 2, how);
  }

  method KaratsubaSub(z: Nat, x: Nat, n: nat, how: Ripple) returns (ghost borrow: Word)
    requires InBounds(z) && InBounds(x) && n + n / 2 <= z.len && n <= x.len
    requires Disjoint(z, n + n / 2, x, n)
    modifies z.data
    ensures OnlyWithin(z.data, z.off, z.off + n + n / 2)
    ensures var zs, xs, zs' := old(First(z, n + n / 2)), old(First(x, n)), First(z, n + n / 2);
      && Val(zs') - borrow * Pow(n + n / 2) == Val(zs) - Val(xs) - DifferenceError(how, zs, xs)
      && Val(zs') == Subtracted(how, Val(zs), Val(xs), n, n / 2)
      && (Val(xs) <= Val(zs)
          ==> (Val(zs') == Val(zs) - Val(xs) <==> how.Repaired? || DifferenceExact(zs, xs)))
  {
    hide Val, Pow, DifferenceError, DifferenceExact, Subtracted;
    borrow := SubThenRipple(z, x, n, n + n / 2, how);
  }

  // ---- the pieces of karatsuba --------------------------------------------------------------

  // d := |a - b|; the two subtractions of lines 109-112
  method AbsDiff(d: Nat, a: Nat, b: Nat) returns (neg: bool)
    requires InBounds(d) && InBounds(a) && InBounds(b) && d.len == a.len == b.len
    requires Disjoint(d, d.len, a, a.len) && Disjoint(d, d.len, b, b.len)
    modifies d.data
    ensures OnlyWithin(d.data, d.off, d.off + d.len)
    ensures var av, bv := old(Val(Words(a))), old(Val(Words(b)));
      (neg <==> av < bv) && Val(Words(d)) == Abs(av - bv)
  {
    hide Val, Pow, SubsTo;
    ghost var xs, ys := Words(a), Words(b);
    var c := SubVV(d, a, b);
    neg := false;
    ghost var ds := Words(d);
    Borrowed(ds, c, xs, ys);
    if c != 0 {
      neg := true;
      assert Words(a) == xs && Words(b) == ys;
      c := SubVV(d, b, a);
      Borrowed(Words(d), c, ys, xs);
    }
  }

  lemma Borrowed(ds: seq<Word>, c: Word, xs: seq<Word>, ys: seq<Word>)
    requires SubsTo(ds, c, xs, ys) && c <= 1
    ensures c == 0 <==> Val(xs) >= Val(ys)
    ensures c == 0 ==> Val(ds) == Val(xs) - Val(ys)
  {
    hide *;
    DifferenceValue(ds, c, xs, ys);
    ValBound(ds);
    if c > 0 { MulMono(1, c, Pow(|ds|)); }
  }

  // Lines 127-134: one 2h-word block at src is added into the 3h words at h.
  method AddBlockWords(z: Nat, h: nat, src: nat, how: Ripple)
    requires InBounds(z) && 4 * h <= src && src + 2 * h <= z.len
    modifies z.data
    ensures OnlyWithin(z.data, z.off + h, z.off + 4 * h)
    ensures Val(Block(z, h, 3 * h))
         == Added(how, old(Val(Block(z, h, 3 * h))), old(Val(Block(z, src, 2 * h))), 2 * h, h)
  {
    hide Val, Pow, Added, SumError, SumExact;
    PartBlock(z, h, z.len, 0, 3 * h);
    PartBlock(z, src, z.len, 0, 2 * h);
    ghost var zs, xs := Block(z, h, 3 * h), Block(z, src, 2 * h);
    assert 2 * h + 2 * h / 2 == 3 * h;
    ghost var _ := KaratsubaAdd(Part(z, h, z.len), Part(z, src, z.len), 2 * h, how);
    PartBlock(z, h, z.len, 0, 3 * h);
    assert Val(Block(z, h, 3 * h)) == Added(how, Val(zs), Val(xs), 2 * h, h);
  }

  method AddBlock(z: Nat, h: nat, src: nat, how: Ripple)
    requires InBounds(z) && 4 * h <= src && src + 2 * h <= z.len
    modifies z.data
    ensures OnlyWithin(z.data, z.off + h, z.off + 4 * h) && BlocksKept(z, h, 4 * h)
    ensures Val(Block(z, h, 3 * h))
         == Added(how, old(Val(Block(z, h, 3 * h))), old(Val(Block(z, src, 2 * h))), 2 * h, h)
  {
    hide Val, Pow, Added;
    AddBlockWords(z, h, src, how);
    forall i: nat, n: nat | i + n <= z.len && (i + n <= h || 4 * h <= i)
      ensures Block(z, i, n) == old(Block(z, i, n))
    {}
  }

  method SubBlockWords(z: Nat, h: nat, src: nat, how: Ripple)
    requires InBounds(z) && 4 * h <= src && src + 2 * h <= z.len
    modifies z.data
    ensures OnlyWithin(z.data, z.off + h, z.off + 4 * h)
    ensures Val(Block(z, h, 3 * h))
         == Subtracted(how, old(Val(Block(z, h, 3 * h))), old(Val(Block(z, src, 2 * h))), 2 * h, h)
  {
    hide Val, Pow, Subtracted, DifferenceError, DifferenceExact;
    PartBlock(z, h, z.len, 0, 3 * h);
    PartBlock(z, src, z.len, 0, 2 * h);
    ghost var zs, xs := Block(z, h, 3 * h), Block(z, src, 2 * h);
    assert 2 * h + 2 * h / 2 == 3 * h;
    ghost var _ := KaratsubaSub(Part(z, h, z.len), Part(z, src, z.len), 2 * h, how);
    PartBlock(z, h, z.len, 0, 3 * h);
    assert Val(Block(z, h, 3 * h)) == Subtracted(how, Val(zs), Val(xs), 2 * h, h);
  }

  method SubBlock(z: Nat, h: nat, src: nat, how: Ripple)
    requires InBounds(z) && 4 * h <= src && src + 2 * h <= z.len
    modifies z.data
    ensures OnlyWithin(z.data, z.off + h, z.off + 4 * h) && BlocksKept(z, h, 4 * h)
    ensures Val(Block(z, h, 3 * h))
         == Subtracted(how, old(Val(Block(z, h, 3 * h))), old(Val(Block(z, src, 2 * h))), 2 * h, h)
  {
    hide Val, Pow, Subtracted;
    SubBlockWords(z, h, src, how);
    forall i: nat, n: nat | i + n <= z.len && (i + n <= h || 4 * h <= i)
      ensures Block(z, i, n) == old(Block(z, i, n))
    {}
  }

  // Both products, then the signed third one
  method AddBlocks(z: Nat, h: nat, plus: bool, how: Ripple)
    requires InBounds(z) && 12 * h <= z.len
    modifies z.data
    ensures OnlyWithin(z.data, z.off + h, z.off + 4 * h) && BlocksKept(z, h, 4 * h)
    ensures var z0, a0 := old(Val(Block(z, h, 3 * h))), old(Val(Block(z, 8 * h, 2 * h)));
      var a1, d := old(Val(Block(z, 10 * h, 2 * h))), old(Val(Block(z, 6 * h, 2 * h)));
      var second := Added(how, Added(how, z0, a0, 2 * h, h), a1, 2 * h, h);
      Val(Block(z, h, 3 * h))
      == if plus then Added(how, second, d, 2 * h, h) else Subtracted(how, second, d, 2 * h, h)
  {
    hide Val, Pow, Block, Added, Subtracted;
    AddBlock(z, h, 8 * h, how);
    AddBlock(z, h, 10 * h, how);
    if plus {
      AddBlock(z, h, 6 * h, how);
    } else {
      SubBlock(z, h, 6 * h, how);
    }
  }

  // Line 124: r = z[4n .. 6n] keeps a copy of both products, n = 2h.
  method CopyProductWords(z: Nat, h: nat)
    requires InBounds(z) && 12 * h <= z.len
    modifies z.data
    ensures OnlyWithin(z.data, z.off + 8 * h, z.off + 12 * h)
    ensures Block(z, 8 * h, 4 * h) == old(Block(z, 0, 4 * h))
  {
    var dst, src := Part(z, 8 * h, 12 * h), Part(z, 0, 4 * h);
    PartBlock(z, 0, 4 * h, 0, 4 * h);
    NatCopy(dst, src);
    PartBlock(z, 8 * h, 12 * h, 0, 4 * h);
  }

  method CopyProducts(z: Nat, h: nat)
    requires InBounds(z) && 12 * h <= z.len
    modifies z.data
    ensures OnlyWithin(z.data, z.off + 8 * h, z.off + 12 * h) && BlocksKept(z, 8 * h, 12 * h)
    ensures Block(z, 8 * h, 4 * h) == old(Block(z, 0, 4 * h))
  {
    CopyProductWords(z, h);
    forall i: nat, n: nat | i + n <= z.len && (i + n <= 8 * h || 12 * h <= i)
      ensures Block(z, i, n) == old(Block(z, i, n))
    {}
  }

  lemma HalvesOf(z: Nat, i: nat, n: nat)
    requires z.off + i + 2 * n <= z.data.Length
    ensures Block(z, i, n) == Block(z, i, 2 * n)[..n] && Block(z, i + n, n) == Block(z, i, 2 * n)[n..]
  {}

  // Lines 123-134: the copy of both products, then the block additions at n/2 = h.
  method Combine(z: Nat, h: nat, plus: bool, how: Ripple)
    requires InBounds(z) && 12 * h <= z.len
    modifies z.data
    ensures OnlyWithin(z.data, z.off, z.off + 12 * h)
    ensures var a0, a1 := old(Val(Block(z, 0, 2 * h))), old(Val(Block(z, 2 * h, 2 * h)));
      Val(Block(z, 0, 4 * h)) == Combination(how, a0, a1, old(Val(Block(z, 6 * h, 2 * h))), plus, h)
  {
    hide Val, Pow, Block, Before, Added, Subtracted;
    ghost var low, z0 := Block(z, 0, h), Block(z, h, 3 * h);
    MiddleBlock(z, h);
    HalvesOf(z, 0, 2 * h);
    CopyProducts(z, h);
    HalvesOf(z, 8 * h, 2 * h);
    assert Block(z, 0, h) == low && Block(z, h, 3 * h) == z0;
    AddBlocks(z, h, plus, how);
    assert Block(z, 0, h) == low;
    JoinLow(z, h);
  }

  lemma JoinLow(z: Nat, h: nat)
    requires InBounds(z) && 4 * h <= z.len
    ensures Val(Block(z, 0, 4 * h)) == Val(Block(z, 0, h)) + Pow(h) * Val(Block(z, h, 3 * h))
  {
    var s := Block(z, 0, 4 * h);
    assert s[..h] == Block(z, 0, h) && s[h..] == Block(z, h, 3 * h);
    ValSplit(s, h);
  }

  // With both products side by side, the words from h on are the upper half of the first and the second.
  lemma MiddleBlock(z: Nat, h: nat)
    requires InBounds(z) && 4 * h <= z.len
    ensures var a0, a1 := Val(Block(z, 0, 2 * h)), Val(Block(z, 2 * h, 2 * h));
      Val(Block(z, 0, h)) == a0 % Pow(h) && Val(Block(z, h, 3 * h)) == Before(a0, a1, Pow(h))
  {
    hide Val, Pow, Block, Before;
    JoinLow(z, h);
    HalvesOf(z, 0, 2 * h);
    ValSplit(Block(z, 0, 4 * h), 2 * h);
    PowTwice(h);
    ValBound(Block(z, 0, h));
    ValBound(Block(z, h, h));
    HalvesOf(z, 0, h);
    ValSplit(Block(z, 0, 2 * h), h);
    MiddleValue(Val(Block(z, 0, h)), Val(Block(z, h, h)), Val(Block(z, h, 3 * h)), Val(Block(z, 0, 2 * h)),
                Val(Block(z, 2 * h, 2 * h)), Pow(h));
  }

  lemma MiddleValue(low: int, up: int, m: int, a0: int, a1: int, p: int)
    requires 0 <= low < p && a0 == low + p * up && low + p * m == a0 + (p * p) * a1
    ensures low == a0 % p && m == Before(a0, a1, p)
  {
    LowHigh(a0, p, low, up);
    assert p * (up + p * a1) == p * up + (p * p) * a1;
    SameMultiple(p, m, up + p * a1, low);
  }

  // ---- karatsuba ------------------------------------------------------------------------------

  // z[0 .. 2n] becomes what karatsuba computes of x and y, their product wherever KaratsubaRight
  // holds or the ripple is repaired; the other words of z[0 .. 6n] are scratch space. x and y may
  // lie in the same array as z, outside those 6n words.
  method Karatsuba(z: Nat, x: Nat, y: Nat, how: Ripple)
    requires InBounds(z) && InBounds(x) && InBounds(y) && x.len == y.len && 6 * y.len <= z.len
    requires Disjoint(z, 6 * y.len, x, x.len) && Disjoint(z, 6 * y.len, y, y.len)
    modifies z.data
    ensures OnlyWithin(z.data, z.off, z.off + 6 * y.len)
    ensures Val(Block(z, 0, 2 * y.len)) == Product(how, old(Val(Words(x))), old(Val(Words(y))), y.len)
    decreases y.len, 3
  {
    hide Val, Pow, Combination;
    var n := y.len;
    if n % 2 != 0 || n < KARATSUBA_THRESHOLD || n < 2 {
      BasicMul(z, x, y);
    } else {
      KaratsubaEven(z, x, y, n / 2, how);
    }
  }

  method KaratsubaEven(z: Nat, x: Nat, y: Nat, h: nat, how: Ripple)
    requires InBounds(z) && InBounds(x) && InBounds(y) && x.len == y.len == 2 * h && 12 * h <= z.len
    requires !Direct(2 * h) && Disjoint(z, 12 * h, x, x.len) && Disjoint(z, 12 * h, y, y.len)
    modifies z.data
    ensures OnlyWithin(z.data, z.off, z.off + 12 * h)
    ensures Val(Block(z, 0, 4 * h)) == Product(how, old(Val(Words(x))), old(Val(Words(y))), 2 * h)
    decreases 2 * h, 2
  {
    hide Val, Pow, Combination, Product, IsDifferenceProduct, AreHalfProducts;
    ghost var xs, ys := Words(x), Words(y);
    HalfProducts(z, x, y, h, how);
    ghost var w0, w1 := Block(z, 0, 2 * h), Block(z, 2 * h, 2 * h);
    assert Words(x) == xs && Words(y) == ys;
    BlocksOfWords(x, h);
    BlocksOfWords(y, h);
    var plus := DifferenceProduct(z, x, y, h, how);
    assert Block(z, 0, 2 * h) == w0 && Block(z, 2 * h, 2 * h) == w1;
    FinalProduct(how, xs, ys, h, w0, w1, Val(Block(z, 6 * h, 2 * h)), plus);
    Combine(z, h, plus, how);
  }

  ghost predicate AreHalfProducts(how: Ripple, w0: seq<Word>, w1: seq<Word>, xs: seq<Word>, ys: seq<Word>, h: nat)
    requires h <= |xs| && h <= |ys|
  {
    && Val(w0) == Product(how, Val(xs[..h]), Val(ys[..h]), h)
    && Val(w1) == Product(how, Val(xs[h..]), Val(ys[h..]), h)
  }

  // Lines 104-105: the products of the low and of the high halves
  method HalfProducts(z: Nat, x: Nat, y: Nat, h: nat, how: Ripple)
    requires InBounds(z) && InBounds(x) && InBounds(y) && 0 < h && x.len == y.len == 2 * h && 12 * h <= z.len
    requires Disjoint(z, 12 * h, x, x.len) && Disjoint(z, 12 * h, y, y.len)
    modifies z.data
    ensures OnlyWithin(z.data, z.off, z.off + 12 * h)
    ensures AreHalfProducts(how, Block(z, 0, 2 * h), Block(z, 2 * h, 2 * h), old(Words(x)), old(Words(y)), h)
    decreases 2 * h, 1
  {
    hide Val, Pow, Product;
    ghost var xs, ys := Words(x), Words(y);
    LowProduct(z, x, y, h, how);
    ghost var w0 := Block(z, 0, 2 * h);
    HighProduct(z, x, y, h, how);
    assert Block(z, 0, 2 * h) == w0;
  }

  method LowProduct(z: Nat, x: Nat, y: Nat, h: nat, how: Ripple)
    requires InBounds(z) && InBounds(x) && InBounds(y) && 0 < h && x.len == y.len == 2 * h && 12 * h <= z.len
    requires Disjoint(z, 12 * h, x, x.len) && Disjoint(z, 12 * h, y, y.len)
    modifies z.data
    ensures OnlyWithin(z.data, z.off, z.off + 12 * h)
    ensures Words(x) == old(Words(x)) && Words(y) == old(Words(y))
    ensures Val(Block(z, 0, 2 * h)) == Product(how, Val(Words(x)[..h]), Val(Words(y)[..h]), h)
    decreases 2 * h, 0
  {
    hide Val, Pow, Product;
    HalvesOfWords(x, h);
    HalvesOfWords(y, h);
    Karatsuba(z, Part(x, 0, h), Part(y, 0, h), how);
  }

  method HighProduct(z: Nat, x: Nat, y: Nat, h: nat, how: Ripple)
    requires InBounds(z) && InBounds(x) && InBounds(y) && 0 < h && x.len == y.len == 2 * h && 12 * h <= z.len
    requires Disjoint(z, 12 * h, x, x.len) && Disjoint(z, 12 * h, y, y.len)
    modifies z.data
    ensures OnlyWithin(z.data, z.off + 2 * h, z.off + 12 * h)
    ensures Val(Block(z, 2 * h, 2 * h)) == Product(how, Val(old(Words(x))[h..]), Val(old(Words(y))[h..]), h)
    decreases 2 * h, 0
  {
    hide Val, Pow, Product;
    HalvesOfWords(x, h);
    HalvesOfWords(y, h);
    Karatsuba(Part(z, 2 * h, z.len), Part(x, h, x.len), Part(y, h, y.len), how);
    PartBlock(z, 2 * h, z.len, 0, 2 * h);
  }

  lemma HalvesOfWords(x: Nat, h: nat)
    requires InBounds(x) && h <= x.len
    ensures Words(Part(x, 0, h)) == Words(x)[..h] && Words(Part(x, h, x.len)) == Words(x)[h..]
  {}

  // The h words of z at i become the absolute difference of two blocks of x.
  method BlockDifference(z: Nat, i: nat, h: nat, x: Nat, p: nat, q: nat) returns (neg: bool)
    requires InBounds(z) && InBounds(x) && i + h <= z.len && p + h <= x.len && q + h <= x.len
    requires Disjoint(z, i + h, x, x.len)
    modifies z.data
    ensures OnlyWithin(z.data, z.off + i, z.off + i + h)
    ensures var a, b := old(Val(Block(x, p, h))), old(Val(Block(x, q, h)));
      (neg <==> a < b) && Val(Block(z, i, h)) == Abs(a - b)
  {
    hide Val;
    neg := AbsDiff(Part(z, i, i + h), Part(x, p, p + h), Part(x, q, q + h));
  }

  lemma BlocksOfWords(x: Nat, h: nat)
    requires InBounds(x) && x.len == 2 * h
    ensures Block(x, 0, h) == Words(x)[..h] && Block(x, h, h) == Words(x)[h..]
  {}

  // Lines 107-118: |x1 - x0| and |y0 - y1| side by side at 4h
  method Differences(z: Nat, x: Nat, y: Nat, h: nat) returns (nx: bool, ny: bool)
    requires InBounds(z) && InBounds(x) && InBounds(y) && x.len == y.len == 2 * h && 6 * h <= z.len
    requires Disjoint(z, 6 * h, x, x.len) && Disjoint(z, 6 * h, y, y.len)
    modifies z.data
    ensures OnlyWithin(z.data, z.off + 4 * h, z.off + 6 * h)
    ensures var x0, x1 := old(Val(Block(x, 0, h))), old(Val(Block(x, h, h)));
      (nx <==> x1 < x0) && Val(Block(z, 4 * h, h)) == Abs(x1 - x0)
    ensures var y0, y1 := old(Val(Block(y, 0, h))), old(Val(Block(y, h, h)));
      (ny <==> y0 < y1) && Val(Block(z, 5 * h, h)) == Abs(y0 - y1)
  {
    hide Val;
    ghost var y0, y1 := Block(y, 0, h), Block(y, h, h);
    nx := BlockDifference(z, 4 * h, h, x, h, 0);
    ghost var dx := Block(z, 4 * h, h);
    assert Block(y, 0, h) == y0 && Block(y, h, h) == y1;
    ny := BlockDifference(z, 5 * h, h, y, 0, h);
    assert Block(z, 4 * h, h) == dx;
  }

  // d is what the third product leaves of the differences, plus its sign.
  ghost predicate IsDifferenceProduct(how: Ripple, d: int, plus: bool, x0: int, x1: int, y0: int, y1: int, h: nat) {
    plus == ((x1 < x0) == (y0 < y1)) && d == Product(how, Abs(x1 - x0), Abs(y0 - y1), h)
  }

  // Lines 107-121: the differences, and their product at 6h
  method DifferenceProduct(z: Nat, x: Nat, y: Nat, h: nat, how: Ripple) returns (plus: bool)
    requires InBounds(z) && InBounds(x) && InBounds(y) && 0 < h && x.len == y.len == 2 * h && 12 * h <= z.len
    requires Disjoint(z, 12 * h, x, x.len) && Disjoint(z, 12 * h, y, y.len)
    modifies z.data
    ensures OnlyWithin(z.data, z.off + 4 * h, z.off + 12 * h)
    ensures var x0, x1 := old(Val(Block(x, 0, h))), old(Val(Block(x, h, h)));
      var y0, y1 := old(Val(Block(y, 0, h))), old(Val(Block(y, h, h)));
      IsDifferenceProduct(how, Val(Block(z, 6 * h, 2 * h)), plus, x0, x1, y0, y1, h)
    decreases 2 * h, 1
  {
    hide Val, Pow, Product;
    var nx, ny := Differences(z, x, y, h);
    MultiplyDifferences(z, h, how);
    plus := nx == ny;
  }

  // Line 121
  method MultiplyDifferences(z: Nat, h: nat, how: Ripple)
    requires InBounds(z) && 0 < h && 12 * h <= z.len
    modifies z.data
    ensures OnlyWithin(z.data, z.off + 6 * h, z.off + 12 * h)
    ensures Val(Block(z, 6 * h, 2 * h)) == Product(how, old(Val(Block(z, 4 * h, h))), old(Val(Block(z, 5 * h, h))), h)
    decreases 2 * h, 0
  {
    hide Val, Pow, Product;
    Karatsuba(Part(z, 6 * h, z.len), Part(z, 4 * h, 5 * h), Part(z, 5 * h, 6 * h), how);
    PartBlock(z, 6 * h, z.len, 0, 2 * h);
  }

  lemma FinalProduct(how: Ripple, xs: seq<Word>, ys: seq<Word>, h: nat, w0: seq<Word>, w1: seq<Word>,
                     d: int, plus: bool)
    requires !Direct(2 * h) && |xs| == |ys| == 2 * h && AreHalfProducts(how, w0, w1, xs, ys, h)
    requires IsDifferenceProduct(how, d, plus, Val(xs[..h]), Val(xs[h..]), Val(ys[..h]), Val(ys[h..]), h)
    ensures Combination(how, Val(w0), Val(w1), d, plus, h) == Product(how, Val(xs), Val(ys), 2 * h)
  {
    hide Val, Pow, Combination, Product;
    HalfValues(xs, h);
    HalfValues(ys, h);
    Unfold(how, Val(xs), Val(ys), 2 * h, h, Val(xs[..h]), Val(xs[h..]), Val(ys[..h]), Val(ys[h..]));
  }

  lemma HalfValues(xs: seq<Word>, h: nat)
    requires h <= |xs|
    ensures Val(xs[..h]) == Val(xs) % Pow(h) && Val(xs[h..]) == Val(xs) / Pow(h)
  {
    hide *;
    ValSplit(xs, h);
    ValBound(xs[..h]);
    LowHigh(Val(xs), Pow(h), Val(xs[..h]), Val(xs[h..]));
  }
}
