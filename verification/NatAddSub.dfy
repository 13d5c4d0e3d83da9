/** cmake/bigint/src/natadd.c and natsub.c: carry and borrow loops over word arrays. */
module NatAddSub {
  import opened Bits
  import opened Base
  import opened Nats

  // ---- one carry step at the value level ----------------------------------------

  lemma CarryStep(zv: int, xv: int, yv: int, c: int, z: int, x: int, y: int, c': int, p: int)
    requires zv + c * p == xv + yv
    requires z + W * c' == x + y + c
    ensures (zv + z * p) + c' * (W * p) == (xv + x * p) + (yv + y * p)
  {
    assert (z + W * c') * p == (x + y + c) * p;
    assert (z + W * c') * p == z * p + c' * (W * p);
    assert (x + y + c) * p == x * p + y * p + c * p;
  }

  lemma BorrowStep(zv: int, xv: int, yv: int, c: int, z: int, x: int, y: int, c': int, p: int)
    requires zv - c * p == xv - yv
    requires z - W * c' == x - y - c
    ensures (zv + z * p) - c' * (W * p) == (xv + x * p) - (yv + y * p)
  {
    assert (z - W * c') * p == (x - y - c) * p;
    assert (z - W * c') * p == z * p - c' * (W * p);
    assert (x - y - c) * p == x * p - y * p - c * p;
  }

  // ---- addVV, subVV ---------------------------------------------------------------

  // zs with outgoing carry c is the sum of xs and ys, words of the same length.
  ghost predicate AddsTo(zs: seq<Word>, c: int, xs: seq<Word>, ys: seq<Word>) {
    && |zs| == |xs| == |ys|
    && Val(zs) + c * Pow(|zs|) == Val(xs) + Val(ys)
  }

  lemma AddsToEmpty(zs: seq<Word>, xs: seq<Word>, ys: seq<Word>)
    requires |zs| == |xs| == |ys| == 0
    ensures AddsTo(zs, 0, xs, ys)
  {}

  lemma AddsToStep(zs: seq<Word>, c: int, xs: seq<Word>, ys: seq<Word>, i: nat, z: Word, c': int)
    requires i < |xs| == |ys| && AddsTo(zs, c, xs[..i], ys[..i])
    requires z + W * c' == xs[i] + ys[i] + c
    ensures AddsTo(zs + [z], c', xs[..i + 1], ys[..i + 1])
  {
    ValSnoc(zs, z);
    ValPrefix(xs, i);
    ValPrefix(ys, i);
    NextPow(i);
    hide Val, Pow;
    CarryStep(Val(zs), Val(xs[..i]), Val(ys[..i]), c, z, xs[i], ys[i], c', Pow(i));
  }

  lemma AddsToWord(zs: seq<Word>, c: Word, xs: seq<Word>, ys: seq<Word>, i: nat)
    requires c <= 1 && i < |xs| == |ys| && AddsTo(zs, c, xs[..i], ys[..i])
    ensures var r := U64Add(xs[i], ys[i], c); r.1 <= 1 && AddsTo(zs + [r.0], r.1, xs[..i + 1], ys[..i + 1])
  {
    hide U64Add, AddsTo;
    var r := U64Add(xs[i], ys[i], c);
    AddsToStep(zs, c, xs, ys, i, r.0, r.1);
  }

  // zs with outgoing borrow c is the difference of xs and ys, words of the same length.
  ghost predicate SubsTo(zs: seq<Word>, c: int, xs: seq<Word>, ys: seq<Word>) {
    && |zs| == |xs| == |ys|
    && Val(zs) - c * Pow(|zs|) == Val(xs) - Val(ys)
  }

  lemma SubsToEmpty(zs: seq<Word>, xs: seq<Word>, ys: seq<Word>)
    requires |zs| == |xs| == |ys| == 0
    ensures SubsTo(zs, 0, xs, ys)
  {}

  lemma SubsToStep(zs: seq<Word>, c: int, xs: seq<Word>, ys: seq<Word>, i: nat, z: Word, c': int)
    requires i < |xs| == |ys| && SubsTo(zs, c, xs[..i], ys[..i])
    requires z - W * c' == xs[i] - ys[i] - c
    ensures SubsTo(zs + [z], c', xs[..i + 1], ys[..i + 1])
  {
    ValSnoc(zs, z);
    ValPrefix(xs, i);
    ValPrefix(ys, i);
    NextPow(i);
    hide Val, Pow;
    BorrowStep(Val(zs), Val(xs[..i]), Val(ys[..i]), c, z, xs[i], ys[i], c', Pow(i));
  }

  lemma SubsToWord(zs: seq<Word>, c: Word, xs: seq<Word>, ys: seq<Word>, i: nat)
    requires c <= 1 && i < |xs| == |ys| && SubsTo(zs, c, xs[..i], ys[..i])
    ensures var r := U64Sub(xs[i], ys[i], c); r.1 <= 1 && SubsTo(zs + [r.0], r.1, xs[..i + 1], ys[..i + 1])
  {
    hide U64Sub, SubsTo;
    var r := U64Sub(xs[i], ys[i], c);
    SubsToStep(zs, c, xs, ys, i, r.0, r.1);
  }

  method AddVV(z: Nat, x: Nat, y: Nat) returns (c: Word)
    requires var n := Min3(z.len, x.len, y.len);
      z.off + n <= z.data.Length && x.off + n <= x.data.Length && y.off + n <= y.data.Length
      && ReadsAhead(z, x, n) && ReadsAhead(z, y, n)
    modifies z.data
    ensures c <= 1
    ensures var n := Min3(z.len, x.len, y.len);
      OnlyWithin(z.data, z.off, z.off + n) && AddsTo(First(z, n), c, old(First(x, n)), old(First(y, n)))
  {
    hide AddsTo, U64Add;
    c := 0;
    ghost var n := Min3(z.len, x.len, y.len);
    ghost var xs, ys := First(x, n), First(y, n);
    AddsToEmpty(First(z, 0), xs[..0], ys[..0]);
    var i := 0;
    while i < z.len && i < x.len && i < y.len
      invariant i <= n && c <= 1
      invariant OnlyWithin(z.data, z.off, z.off + i)
      invariant AddsTo(First(z, i), c, xs[..i], ys[..i])
    {
      assert x.data[x.off + i] == xs[i] && y.data[y.off + i] == ys[i];
      ghost var before := First(z, i);
      var r := U64Add(x.data[x.off + i], y.data[y.off + i], c);
      AddsToWord(before, c, xs, ys, i);
      z.data[z.off + i] := r.0;
      c := r.1;
      assert First(z, i + 1) == before + [r.0];
      i := i + 1;
    }
    TakeAll(xs);
    TakeAll(ys);
  }

  method SubVV(z: Nat, x: Nat, y: Nat) returns (c: Word)
    requires var n := Min3(z.len, x.len, y.len);
      z.off + n <= z.data.Length && x.off + n <= x.data.Length && y.off + n <= y.data.Length
      && ReadsAhead(z, x, n) && ReadsAhead(z, y, n)
    modifies z.data
    ensures c <= 1
    ensures var n := Min3(z.len, x.len, y.len);
      OnlyWithin(z.data, z.off, z.off + n) && SubsTo(First(z, n), c, old(First(x, n)), old(First(y, n)))
  {
    hide SubsTo, U64Sub;
    c := 0;
    ghost var n := Min3(z.len, x.len, y.len);
    ghost var xs, ys := First(x, n), First(y, n);
    SubsToEmpty(First(z, 0), xs[..0], ys[..0]);
    var i := 0;
    while i < z.len && i < x.len && i < y.len
      invariant i <= n && c <= 1
      invariant OnlyWithin(z.data, z.off, z.off + i)
      invariant SubsTo(First(z, i), c, xs[..i], ys[..i])
    {
      assert x.data[x.off + i] == xs[i] && y.data[y.off + i] == ys[i];
      ghost var before := First(z, i);
      var r := U64Sub(x.data[x.off + i], y.data[y.off + i], c);
      SubsToWord(before, c, xs, ys, i);
      z.data[z.off + i] := r.0;
      c := r.1;
      assert First(z, i + 1) == before + [r.0];
      i := i + 1;
    }
    TakeAll(xs);
    TakeAll(ys);
  }

  lemma DifferenceValue(a: seq<Word>, c: Word, xs: seq<Word>, ys: seq<Word>)
    requires SubsTo(a, c, xs, ys) && c <= 1
    ensures Val(a) - (if c == 0 then 0 else Pow(|a|)) == Val(xs) - Val(ys)
  {
    hide Val, Pow;
  }

  lemma SumValue(b: seq<Word>, c: Word, xs: seq<Word>, ys: seq<Word>)
    requires AddsTo(b, c, xs, ys)
    ensures |b| == |xs| && Val(b) + c * Pow(|b|) == Val(xs) + Val(ys)
  {}

  // ---- addVW, subVW as written ------------------------------------------------------

  // memcpy of the words i .. n of x, still xs there, to the same place in z
  method CopyUp(z: Nat, x: Nat, i: nat, n: nat, ghost xs: seq<Word>)
    requires i <= n == |xs| && z.off + n <= z.data.Length && x.off + n <= x.data.Length && ReadsAhead(z, x, n)
    requires forall k {:trigger xs[k]} :: i <= k < n ==> x.data[x.off + k] == xs[k]
    modifies z.data
    ensures OnlyWithin(z.data, z.off + i, z.off + n)
    ensures First(z, n) == old(First(z, i)) + xs[i..]
  {
    ghost var z0 := First(z, i);
    assert First(z, i) == z0 + xs[i..i];
    for j := i to n
      invariant OnlyWithin(z.data, z.off + i, z.off + j)
      invariant First(z, j) == z0 + xs[i..j]
    {
      assert x.data[x.off + j] == xs[j];
      ghost var before := First(z, j);
      z.data[z.off + j] := x.data[x.off + j];
      assert First(z, j + 1) == before + [xs[j]];
      OneMore(z0, xs, i, j);
    }
    assert xs[i..n] == xs[i..];
  }

  lemma OneMore(s: seq<Word>, xs: seq<Word>, i: nat, j: nat)
    requires i <= j < |xs|
    ensures (s + xs[i..j]) + [xs[j]] == s + xs[i..j + 1]
  {
    assert xs[i..j + 1] == xs[i..j] + [xs[j]];
  }

  // What the loop of addVW leaves: the carry of a word is both the next addend c and the
  // next carry-in oc.
  function CarryRipple(xs: seq<Word>, c: Word, oc: Word): (r: (seq<Word>, Word))
    requires oc <= 1
    ensures |r.0| == |xs|
  {
    if |xs| == 0 then ([], c)
    else
      var d := U64Add(xs[0], c, oc);
      var rest := CarryRipple(xs[1..], d.1, d.1);
      ([d.0] + rest.0, rest.1)
  }

  // The amount by which that result is off: every carry that leaves a word but the last counts once more.
  function CarryExcess(xs: seq<Word>, c: Word, oc: Word): (e: int)
    requires oc <= 1
    ensures e >= 0
  {
    if |xs| <= 1 then 0
    else
      var d := U64Add(xs[0], c, oc);
      W * (d.1 + CarryExcess(xs[1..], d.1, d.1))
  }

  lemma {:induction false} CarryRippleValue(xs: seq<Word>, c: Word, oc: Word)
    requires oc <= 1 && |xs| > 0
    ensures var r := CarryRipple(xs, c, oc);
            Val(r.0) + r.1 * Pow(|xs|) == Val(xs) + (c + oc + CarryExcess(xs, c, oc))
    ensures CarryRipple(xs, c, oc).1 <= 1
  {
    var d := U64Add(xs[0], c, oc);
    var r := CarryRipple(xs, c, oc);
    var t := CarryRipple(xs[1..], d.1, d.1);
    assert r.0[0] == d.0 && r.0[1..] == t.0 && r.1 == t.1;
    ValCons(xs);
    ValCons(r.0);
    NextPow(|xs| - 1);
    if |xs| == 1 {
      ValEmpty(xs[1..]);
      ValEmpty(r.0[1..]);
      PowZero();
    } else {
      CarryRippleValue(xs[1..], d.1, d.1);
      var e, e' := CarryExcess(xs, c, oc), CarryExcess(xs[1..], d.1, d.1);
      assert e == W * (d.1 + e');
      hide Val, Pow, U64Add, CarryRipple, CarryExcess;
      ScaleByW(r.1, Pow(|xs| - 1));
    }
  }

  // A result without a carry out of word 0 is plain propagation, the only exact case past one word.
  lemma {:induction false} CarryExcessZero(xs: seq<Word>, c: Word)
    ensures CarryExcess(xs, c, 0) == 0 <==> |xs| <= 1 || xs[0] + c < W
  {
    if |xs| > 1 {
      var d: Word := U64Add(xs[0], c, 0).1;
      assert d == if xs[0] + c < W then 0 else 1;
      CarryRippleRest(xs[1..]);
      hide U64Add;
      CarryExcessStep(xs, c, d);
    }
  }

  lemma CarryExcessStep(xs: seq<Word>, c: Word, d: Word)
    requires |xs| > 1 && d == U64Add(xs[0], c, 0).1 <= 1
    ensures CarryExcess(xs, c, 0) == W * (d + CarryExcess(xs[1..], d, d))
  {
    hide U64Add;
  }

  lemma {:induction false} CarryRippleRest(xs: seq<Word>)
    ensures CarryRipple(xs, 0, 0) == (xs, 0) && CarryExcess(xs, 0, 0) == 0
  {
    if |xs| > 0 {
      hide U64Add;
      var d := U64Add(xs[0], 0, 0);
      assert d.1 == 0 && d.0 == xs[0];
      CarryRippleRest(xs[1..]);
      assert [xs[0]] + xs[1..] == xs;
    }
  }

  // After i words: zs are the words stored so far, c and oc the state the loop goes on with.
  ghost predicate CarryRippleAt(xs: seq<Word>, y: Word, i: nat, zs: seq<Word>, c: Word, oc: Word) {
    && i <= |xs| && oc <= 1
    && CarryRipple(xs, y, 0) == (zs + CarryRipple(xs[i..], c, oc).0, CarryRipple(xs[i..], c, oc).1)
  }

  lemma CarryRippleStart(xs: seq<Word>, y: Word, zs: seq<Word>)
    requires |zs| == 0
    ensures CarryRippleAt(xs, y, 0, zs, y, 0)
  {
    assert xs[0..] == xs;
    assert zs + CarryRipple(xs, y, 0).0 == CarryRipple(xs, y, 0).0;
  }

  lemma CarryRippleStep(xs: seq<Word>, y: Word, i: nat, zs: seq<Word>, c: Word, oc: Word)
    requires CarryRippleAt(xs, y, i, zs, c, oc) && i < |xs|
    ensures var d := U64Add(xs[i], c, oc); CarryRippleAt(xs, y, i + 1, zs + [d.0], d.1, d.1)
  {
    hide U64Add;
    var d := U64Add(xs[i], c, oc);
    assert xs[i..][1..] == xs[i + 1..];
    var rest := CarryRipple(xs[i + 1..], d.1, d.1).0;
    assert zs + ([d.0] + rest) == (zs + [d.0]) + rest;
  }

  lemma CarryRippleStop(xs: seq<Word>, y: Word, i: nat, zs: seq<Word>, c: Word, oc: Word)
    requires CarryRippleAt(xs, y, i, zs, c, oc)
    requires i == |xs| || (c == 0 && oc == 0)
    ensures CarryRipple(xs, y, 0) == (zs + xs[i..], c)
  {
    if i == |xs| {
      assert xs[i..] == [];
    } else {
      CarryRippleRest(xs[i..]);
    }
  }

  // One past the last word of z that the long forms write: n words are common to z and x, and the copy
  // takes all len words of x from the word on where the loop stops.
  function WriteEnd(n: nat, stop: nat, len: nat): nat {
    if stop == n then n else stop + len
  }

  // The same for either form, and for z and x of the words xs
  function CarryEnd(xs: seq<Word>, c: Word): nat {
    if |xs| > 32 then WriteEnd(|xs|, CarryStop(xs, c, 0), |xs|) else |xs|
  }

  function BorrowEnd(xs: seq<Word>, c: Word): nat {
    if |xs| > 32 then WriteEnd(|xs|, BorrowStop(xs, c, 0), |xs|) else |xs|
  }

  // As written: both loops of addVW; the longer form copies the tail once nothing is carried.
  method AddVW(z: Nat, x: Nat, y: Word) returns (c: Word, ghost end: nat)
    requires var n := Min(z.len, x.len);
      z.off + n <= z.data.Length && x.off + n <= x.data.Length && ReadsAhead(z, x, n)
    modifies z.data
    ensures var n := Min(z.len, x.len);
      OnlyWithin(z.data, z.off, z.off + n)
      && (First(z, n), c) == CarryRipple(old(First(x, n)), y, 0)
      && end == if z.len > 32 then WriteEnd(n, CarryStop(old(First(x, n)), y, 0), x.len) else n
  {
    hide CarryStop, CarryRipple, U64Add, CarryRippleAt;
    if z.len > 32 {
      c, end := AddVWLarge(z, x, y);
      return;
    }
    ghost var n := Min(z.len, x.len);
    end := n;
    ghost var xs := First(x, n);
    c := y;
    var oc: Word := 0;
    CarryRippleStart(xs, y, First(z, 0));
    var i := 0;
    while i < z.len && i < x.len
      invariant i <= n && oc <= 1
      invariant OnlyWithin(z.data, z.off, z.off + i)
      invariant CarryRippleAt(xs, y, i, First(z, i), c, oc)
    {
      assert x.data[x.off + i] == xs[i];
      ghost var before := First(z, i);
      CarryRippleStep(xs, y, i, before, c, oc);
      var r := U64Add(x.data[x.off + i], c, oc);
      oc := r.1;
      z.data[z.off + i] := r.0;
      c := oc;
      assert First(z, i + 1) == before + [r.0];
      i := i + 1;
    }
    CarryRippleStop(xs, y, n, First(z, n), c, oc);
    assert First(z, n) + xs[n..] == First(z, n);
  }

  // How many words the loop of addVWlarge goes through before nothing is carried
  function CarryStop(xs: seq<Word>, c: Word, oc: Word): (n: nat)
    requires oc <= 1
    ensures n <= |xs|
  {
    if |xs| == 0 || c == 0 then 0
    else
      var d := U64Add(xs[0], c, oc);
      1 + CarryStop(xs[1..], d.1, d.1)
  }

  // All of them if and only if every word but the last one has something carried out of it
  lemma {:induction false} CarryStopsAtEnd(xs: seq<Word>, c: Word, oc: Word)
    requires |xs| > 0 && c > 0 && oc <= 1
    ensures CarryStop(xs, c, oc) == |xs|
       <==> forall j :: 0 <= j < |xs| - 1 ==> xs[j] + (if j == 0 then c + oc else 2) >= W
  {
    var d := U64Add(xs[0], c, oc);
    assert d.1 == if xs[0] + c + oc >= W then 1 else 0;
    if |xs| > 1 {
      var rest := xs[1..];
      assert forall j :: 0 <= j < |rest| ==> rest[j] == xs[j + 1];
      if d.1 == 1 {
        CarryStopsAtEnd(rest, 1, 1);
        LaterCarry(xs, c, oc);
      } else {
        assert CarryStop(rest, 0, 0) == 0;
      }
    }
  }

  lemma LaterCarry(xs: seq<Word>, c: Word, oc: Word)
    requires |xs| > 1 && c > 0 && oc <= 1 && xs[0] + c + oc >= W
    ensures (forall j :: 0 <= j < |xs| - 1 ==> xs[j] + (if j == 0 then c + oc else 2) >= W)
       <==> forall j :: 0 <= j < |xs[1..]| - 1 ==> xs[1..][j] + (if j == 0 then 2 else 2) >= W
  {
    if forall j :: 0 <= j < |xs[1..]| - 1 ==> xs[1..][j] + (if j == 0 then 2 else 2) >= W {
      forall j | 0 <= j < |xs| - 1 ensures xs[j] + (if j == 0 then c + oc else 2) >= W {
        if j > 0 { assert xs[j] == xs[1..][j - 1]; }
      }
    }
  }

  lemma CarryStopStep(xs: seq<Word>, i: nat, c: Word, oc: Word)
    requires i < |xs| && oc <= 1
    ensures c == 0 ==> CarryStop(xs[i..], c, oc) == 0
    ensures c > 0 ==> var d := U64Add(xs[i], c, oc); CarryStop(xs[i..], c, oc) == 1 + CarryStop(xs[i + 1..], d.1, d.1)
  {
    assert xs[i..][1..] == xs[i + 1..] && xs[i..][0] == xs[i];
    hide U64Add;
  }

  lemma CarryStopDone(xs: seq<Word>, c: Word, oc: Word)
    requires oc <= 1 && (|xs| == 0 || c == 0)
    ensures CarryStop(xs, c, oc) == 0
  {}

  // The loop of addVWlarge, up to the word from which nothing is carried
  method AddVWRun(z: Nat, x: Nat, y: Word, n: nat) returns (c: Word, i: nat)
    requires n == Min(z.len, x.len)
    requires z.off + n <= z.data.Length && x.off + n <= x.data.Length && ReadsAhead(z, x, n)
    modifies z.data
    ensures i <= n && OnlyWithin(z.data, z.off, z.off + i) && i == CarryStop(old(First(x, n)), y, 0)
    ensures var xs := old(First(x, n));
      (First(z, i) + xs[i..], c) == CarryRipple(xs, y, 0)
      && forall k {:trigger xs[k]} :: i <= k < n ==> x.data[x.off + k] == xs[k]
  {
    hide CarryRipple, CarryStop, U64Add, CarryRippleAt;
    ghost var xs := First(x, n);
    c := y;
    var oc: Word := 0;
    CarryRippleStart(xs, y, First(z, 0));
    i := 0;
    assert xs[0..] == xs;
    while i < z.len && i < x.len
      invariant i <= n && oc <= 1 && (if i == 0 then oc == 0 else c == oc)
      invariant OnlyWithin(z.data, z.off, z.off + i)
      invariant forall k {:trigger xs[k]} :: i <= k < n ==> x.data[x.off + k] == xs[k]
      invariant CarryRippleAt(xs, y, i, First(z, i), c, oc)
      invariant CarryStop(xs, y, 0) == i + CarryStop(xs[i..], c, oc)
    {
      CarryStopStep(xs, i, c, oc);
      if c == 0 {
        break;
      }
      assert x.data[x.off + i] == xs[i];
      ghost var before := First(z, i);
      CarryRippleStep(xs, y, i, before, c, oc);
      var r := U64Add(x.data[x.off + i], c, oc);
      oc := r.1;
      z.data[z.off + i] := r.0;
      c := oc;
      assert First(z, i + 1) == before + [r.0];
      i := i + 1;
    }
    CarryRippleStop(xs, y, i, First(z, i), c, oc);
    if i == n { assert xs[i..] == []; }
    CarryStopDone(xs[i..], c, oc);
  }

  method AddVWLarge(z: Nat, x: Nat, y: Word) returns (c: Word, ghost end: nat)
    requires var n := Min(z.len, x.len);
      z.off + n <= z.data.Length && x.off + n <= x.data.Length && ReadsAhead(z, x, n)
    modifies z.data
    ensures var n := Min(z.len, x.len);
      OnlyWithin(z.data, z.off, z.off + n)
      && (First(z, n), c) == CarryRipple(old(First(x, n)), y, 0)
      && end == WriteEnd(n, CarryStop(old(First(x, n)), y, 0), x.len)
  {
    hide CarryRipple, CarryStop;
    var n := Min(z.len, x.len);
    ghost var xs := First(x, n);
    var i: nat;
    c, i := AddVWRun(z, x, y, n);
    end := if i < n then i + x.len else n;
    CopyUp(z, x, i, n, xs);
  }

  // What the loop of subVW leaves: the borrow of a word is both the next addend c and the
  // next borrow-in oc.
  function BorrowRipple(xs: seq<Word>, c: Word, oc: Word): (r: (seq<Word>, Word))
    requires oc <= 1
    ensures |r.0| == |xs|
  {
    if |xs| == 0 then ([], c)
    else
      var d := U64Sub(xs[0], c, oc);
      var rest := BorrowRipple(xs[1..], d.1, d.1);
      ([d.0] + rest.0, rest.1)
  }

  // The amount by which that result is off: every borrow that leaves a word but the last counts once more.
  function BorrowExcess(xs: seq<Word>, c: Word, oc: Word): (e: int)
    requires oc <= 1
    ensures e >= 0
  {
    if |xs| <= 1 then 0
    else
      var d := U64Sub(xs[0], c, oc);
      W * (d.1 + BorrowExcess(xs[1..], d.1, d.1))
  }

  lemma {:induction false} BorrowRippleValue(xs: seq<Word>, c: Word, oc: Word)
    requires oc <= 1 && |xs| > 0
    ensures var r := BorrowRipple(xs, c, oc);
            Val(r.0) - r.1 * Pow(|xs|) == Val(xs) - (c + oc + BorrowExcess(xs, c, oc))
    ensures BorrowRipple(xs, c, oc).1 <= 1
  {
    var d := U64Sub(xs[0], c, oc);
    var r := BorrowRipple(xs, c, oc);
    var t := BorrowRipple(xs[1..], d.1, d.1);
    assert r.0[0] == d.0 && r.0[1..] == t.0 && r.1 == t.1;
    ValCons(xs);
    ValCons(r.0);
    NextPow(|xs| - 1);
    if |xs| == 1 {
      ValEmpty(xs[1..]);
      ValEmpty(r.0[1..]);
      PowZero();
    } else {
      BorrowRippleValue(xs[1..], d.1, d.1);
      var e, e' := BorrowExcess(xs, c, oc), BorrowExcess(xs[1..], d.1, d.1);
      assert e == W * (d.1 + e');
      hide Val, Pow, U64Sub, BorrowRipple, BorrowExcess;
      ScaleByW(r.1, Pow(|xs| - 1));
    }
  }

  // A result without a borrow out of word 0 is plain propagation, the only exact case past one word.
  lemma {:induction false} BorrowExcessZero(xs: seq<Word>, c: Word)
    ensures BorrowExcess(xs, c, 0) == 0 <==> |xs| <= 1 || xs[0] - c >= 0
  {
    if |xs| > 1 {
      var d: Word := U64Sub(xs[0], c, 0).1;
      assert d == if xs[0] - c >= 0 then 0 else 1;
      BorrowRippleRest(xs[1..]);
      hide U64Sub;
      BorrowExcessStep(xs, c, d);
    }
  }

  lemma BorrowExcessStep(xs: seq<Word>, c: Word, d: Word)
    requires |xs| > 1 && d == U64Sub(xs[0], c, 0).1 <= 1
    ensures BorrowExcess(xs, c, 0) == W * (d + BorrowExcess(xs[1..], d, d))
  {
    hide U64Sub;
  }

  lemma {:induction false} BorrowRippleRest(xs: seq<Word>)
    ensures BorrowRipple(xs, 0, 0) == (xs, 0) && BorrowExcess(xs, 0, 0) == 0
  {
    if |xs| > 0 {
      hide U64Sub;
      var d := U64Sub(xs[0], 0, 0);
      assert d.1 == 0 && d.0 == xs[0];
      BorrowRippleRest(xs[1..]);
      assert [xs[0]] + xs[1..] == xs;
    }
  }

  // After i words: zs are the words stored so far, c and oc the state the loop goes on with.
  ghost predicate BorrowRippleAt(xs: seq<Word>, y: Word, i: nat, zs: seq<Word>, c: Word, oc: Word) {
    && i <= |xs| && oc <= 1
    && BorrowRipple(xs, y, 0) == (zs + BorrowRipple(xs[i..], c, oc).0, BorrowRipple(xs[i..], c, oc).1)
  }

  lemma BorrowRippleStart(xs: seq<Word>, y: Word, zs: seq<Word>)
    requires |zs| == 0
    ensures BorrowRippleAt(xs, y, 0, zs, y, 0)
  {
    assert xs[0..] == xs;
    assert zs + BorrowRipple(xs, y, 0).0 == BorrowRipple(xs, y, 0).0;
  }

  lemma BorrowRippleStep(xs: seq<Word>, y: Word, i: nat, zs: seq<Word>, c: Word, oc: Word)
    requires BorrowRippleAt(xs, y, i, zs, c, oc) && i < |xs|
    ensures var d := U64Sub(xs[i], c, oc); BorrowRippleAt(xs, y, i + 1, zs + [d.0], d.1, d.1)
  {
    hide U64Sub;
    var d := U64Sub(xs[i], c, oc);
    assert xs[i..][1..] == xs[i + 1..];
    var rest := BorrowRipple(xs[i + 1..], d.1, d.1).0;
    assert zs + ([d.0] + rest) == (zs + [d.0]) + rest;
  }

  lemma BorrowRippleStop(xs: seq<Word>, y: Word, i: nat, zs: seq<Word>, c: Word, oc: Word)
    requires BorrowRippleAt(xs, y, i, zs, c, oc)
    requires i == |xs| || (c == 0 && oc == 0)
    ensures BorrowRipple(xs, y, 0) == (zs + xs[i..], c)
  {
    if i == |xs| {
      assert xs[i..] == [];
    } else {
      BorrowRippleRest(xs[i..]);
    }
  }

  // As written: both loops of subVW; the longer form copies the tail once nothing is carried.
  method SubVW(z: Nat, x: Nat, y: Word) returns (c: Word, ghost end: nat)
    requires var n := Min(z.len, x.len);
      z.off + n <= z.data.Length && x.off + n <= x.data.Length && ReadsAhead(z, x, n)
    modifies z.data
    ensures var n := Min(z.len, x.len);
      OnlyWithin(z.data, z.off, z.off + n)
      && (First(z, n), c) == BorrowRipple(old(First(x, n)), y, 0)
      && end == if z.len > 32 then WriteEnd(n, BorrowStop(old(First(x, n)), y, 0), x.len) else n
  {
    hide BorrowStop, BorrowRipple, U64Sub, BorrowRippleAt;
    if z.len > 32 {
      c, end := SubVWLarge(z, x, y);
      return;
    }
    ghost var n := Min(z.len, x.len);
    end := n;
    ghost var xs := First(x, n);
    c := y;
    var oc: Word := 0;
    BorrowRippleStart(xs, y, First(z, 0));
    var i := 0;
    while i < z.len && i < x.len
      invariant i <= n && oc <= 1
      invariant OnlyWithin(z.data, z.off, z.off + i)
      invariant BorrowRippleAt(xs, y, i, First(z, i), c, oc)
    {
      assert x.data[x.off + i] == xs[i];
      ghost var before := First(z, i);
      BorrowRippleStep(xs, y, i, before, c, oc);
      var r := U64Sub(x.data[x.off + i], c, oc);
      oc := r.1;
      z.data[z.off + i] := r.0;
      c := oc;
      assert First(z, i + 1) == before + [r.0];
      i := i + 1;
    }
    BorrowRippleStop(xs, y, n, First(z, n), c, oc);
    assert First(z, n) + xs[n..] == First(z, n);
  }

  // How many words the loop of subVWlarge goes through before nothing is borrowed
  function BorrowStop(xs: seq<Word>, c: Word, oc: Word): (n: nat)
    requires oc <= 1
    ensures n <= |xs|
  {
    if |xs| == 0 || c == 0 then 0
    else
      var d := U64Sub(xs[0], c, oc);
      1 + BorrowStop(xs[1..], d.1, d.1)
  }

  // All of them if and only if every word but the last one has something borrowed out of it
  lemma {:induction false} BorrowStopsAtEnd(xs: seq<Word>, c: Word, oc: Word)
    requires |xs| > 0 && c > 0 && oc <= 1
    ensures BorrowStop(xs, c, oc) == |xs| <==> forall j :: 0 <= j < |xs| - 1 ==> xs[j] < if j == 0 then c + oc else 2
  {
    var d := U64Sub(xs[0], c, oc);
    assert d.1 == if xs[0] < c + oc then 1 else 0;
    if |xs| > 1 {
      var rest := xs[1..];
      assert forall j :: 0 <= j < |rest| ==> rest[j] == xs[j + 1];
      if d.1 == 1 {
        BorrowStopsAtEnd(rest, 1, 1);
        LaterBorrow(xs, c, oc);
      } else {
        assert BorrowStop(rest, 0, 0) == 0;
      }
    }
  }

  lemma LaterBorrow(xs: seq<Word>, c: Word, oc: Word)
    requires |xs| > 1 && c > 0 && oc <= 1 && xs[0] < c + oc
    ensures (forall j :: 0 <= j < |xs| - 1 ==> xs[j] < if j == 0 then c + oc else 2)
       <==> forall j :: 0 <= j < |xs[1..]| - 1 ==> xs[1..][j] < if j == 0 then 2 else 2
  {
    if forall j :: 0 <= j < |xs[1..]| - 1 ==> xs[1..][j] < if j == 0 then 2 else 2 {
      forall j | 0 <= j < |xs| - 1 ensures xs[j] < if j == 0 then c + oc else 2 {
        if j > 0 { assert xs[j] == xs[1..][j - 1]; }
      }
    }
  }

  lemma BorrowStopStep(xs: seq<Word>, i: nat, c: Word, oc: Word)
    requires i < |xs| && oc <= 1
    ensures c == 0 ==> BorrowStop(xs[i..], c, oc) == 0
    ensures c > 0 ==> var d := U64Sub(xs[i], c, oc); BorrowStop(xs[i..], c, oc) == 1 + BorrowStop(xs[i + 1..], d.1, d.1)
  {
    assert xs[i..][1..] == xs[i + 1..] && xs[i..][0] == xs[i];
    hide U64Sub;
  }

  lemma BorrowStopDone(xs: seq<Word>, c: Word, oc: Word)
    requires oc <= 1 && (|xs| == 0 || c == 0)
    ensures BorrowStop(xs, c, oc) == 0
  {}

  // The loop of subVWlarge, up to the word from which nothing is borrowed
  method SubVWRun(z: Nat, x: Nat, y: Word, n: nat) returns (c: Word, i: nat)
    requires n == Min(z.len, x.len)
    requires z.off + n <= z.data.Length && x.off + n <= x.data.Length && ReadsAhead(z, x, n)
    modifies z.data
    ensures i <= n && OnlyWithin(z.data, z.off, z.off + i) && i == BorrowStop(old(First(x, n)), y, 0)
    ensures var xs := old(First(x, n));
      (First(z, i) + xs[i..], c) == BorrowRipple(xs, y, 0)
      && forall k {:trigger xs[k]} :: i <= k < n ==> x.data[x.off + k] == xs[k]
  {
    hide BorrowRipple, BorrowStop, U64Sub, BorrowRippleAt;
    ghost var xs := First(x, n);
    c := y;
    var oc: Word := 0;
    BorrowRippleStart(xs, y, First(z, 0));
    i := 0;
    assert xs[0..] == xs;
    while i < z.len && i < x.len
      invariant i <= n && oc <= 1 && (if i == 0 then oc == 0 else c == oc)
      invariant OnlyWithin(z.data, z.off, z.off + i)
      invariant forall k {:trigger xs[k]} :: i <= k < n ==> x.data[x.off + k] == xs[k]
      invariant BorrowRippleAt(xs, y, i, First(z, i), c, oc)
      invariant BorrowStop(xs, y, 0) == i + BorrowStop(xs[i..], c, oc)
    {
      BorrowStopStep(xs, i, c, oc);
      if c == 0 {
        break;
      }
      assert x.data[x.off + i] == xs[i];
      ghost var before := First(z, i);
      BorrowRippleStep(xs, y, i, before, c, oc);
      var r := U64Sub(x.data[x.off + i], c, oc);
      oc := r.1;
      z.data[z.off + i] := r.0;
      c := oc;
      assert First(z, i + 1) == before + [r.0];
      i := i + 1;
    }
    BorrowRippleStop(xs, y, i, First(z, i), c, oc);
    if i == n { assert xs[i..] == []; }
    BorrowStopDone(xs[i..], c, oc);
  }

  method SubVWLarge(z: Nat, x: Nat, y: Word) returns (c: Word, ghost end: nat)
    requires var n := Min(z.len, x.len);
      z.off + n <= z.data.Length && x.off + n <= x.data.Length && ReadsAhead(z, x, n)
    modifies z.data
    ensures var n := Min(z.len, x.len);
      OnlyWithin(z.data, z.off, z.off + n)
      && (First(z, n), c) == BorrowRipple(old(First(x, n)), y, 0)
      && end == WriteEnd(n, BorrowStop(old(First(x, n)), y, 0), x.len)
  {
    hide BorrowRipple, BorrowStop;
    var n := Min(z.len, x.len);
    ghost var xs := First(x, n);
    var i: nat;
    c, i := SubVWRun(z, x, y, n);
    end := if i < n then i + x.len else n;
    CopyUp(z, x, i, n, xs);
  }

  // ---- addVW, subVW repaired ---------------------------------------------------------
  // The carry is added once: each word starts with a carry-in of 0.

  ghost predicate AddsWord(zs: seq<Word>, c: int, xs: seq<Word>, y: int) {
    |zs| == |xs| && Val(zs) + c * Pow(|zs|) == Val(xs) + y
  }

  ghost predicate SubsWord(zs: seq<Word>, c: int, xs: seq<Word>, y: int) {
    |zs| == |xs| && Val(zs) - c * Pow(|zs|) == Val(xs) - y
  }

  lemma AddsWordStart(zs: seq<Word>, xs: seq<Word>, y: Word)
    requires |zs| == |xs| == 0
    ensures AddsWord(zs, y, xs, y) && SubsWord(zs, y, xs, y)
  {}

  lemma AddsWordStep(zs: seq<Word>, c: int, xs: seq<Word>, i: nat, y: int, z: Word, c': int)
    requires i < |xs| && AddsWord(zs, c, xs[..i], y) && z + W * c' == xs[i] + c
    ensures AddsWord(zs + [z], c', xs[..i + 1], y)
  {
    ValSnoc(zs, z);
    ValPrefix(xs, i);
    NextPow(i);
    hide Val, Pow;
    CarryStep(Val(zs), Val(xs[..i]), y, c, z, xs[i], 0, c', Pow(i));
  }

  lemma SubsWordStep(zs: seq<Word>, c: int, xs: seq<Word>, i: nat, y: int, z: Word, c': int)
    requires i < |xs| && SubsWord(zs, c, xs[..i], y) && z - W * c' == xs[i] - c
    ensures SubsWord(zs + [z], c', xs[..i + 1], y)
  {
    ValSnoc(zs, z);
    ValPrefix(xs, i);
    NextPow(i);
    hide Val, Pow;
    BorrowStep(Val(zs), Val(xs[..i]), y, c, z, xs[i], 0, c', Pow(i));
  }

  method AddVWRepaired(z: Nat, x: Nat, y: Word) returns (c: Word)
    requires var n := Min(z.len, x.len);
      z.off + n <= z.data.Length && x.off + n <= x.data.Length && ReadsAhead(z, x, n)
    modifies z.data
    ensures Min(z.len, x.len) > 0 ==> c <= 1
    ensures var n := Min(z.len, x.len);
      OnlyWithin(z.data, z.off, z.off + n) && AddsWord(First(z, n), c, old(First(x, n)), y)
  {
    hide AddsWord, U64Add;
    ghost var n := Min(z.len, x.len);
    ghost var xs := First(x, n);
    c := y;
    AddsWordStart(First(z, 0), xs[..0], y);
    var i := 0;
    while i < z.len && i < x.len
      invariant i <= n && (i > 0 ==> c <= 1)
      invariant OnlyWithin(z.data, z.off, z.off + i)
      invariant AddsWord(First(z, i), c, xs[..i], y)
    {
      assert x.data[x.off + i] == xs[i];
      ghost var before := First(z, i);
      var r := U64Add(x.data[x.off + i], c, 0);
      AddsWordStep(before, c, xs, i, y, r.0, r.1);
      z.data[z.off + i] := r.0;
      c := r.1;
      assert First(z, i + 1) == before + [r.0];
      i := i + 1;
    }
    TakeAll(xs);
  }

  method SubVWRepaired(z: Nat, x: Nat, y: Word) returns (c: Word)
    requires var n := Min(z.len, x.len);
      z.off + n <= z.data.Length && x.off + n <= x.data.Length && ReadsAhead(z, x, n)
    modifies z.data
    ensures Min(z.len, x.len) > 0 ==> c <= 1
    ensures var n := Min(z.len, x.len);
      OnlyWithin(z.data, z.off, z.off + n) && SubsWord(First(z, n), c, old(First(x, n)), y)
  {
    hide SubsWord, U64Sub;
    ghost var n := Min(z.len, x.len);
    ghost var xs := First(x, n);
    c := y;
    AddsWordStart(First(z, 0), xs[..0], y);
    var i := 0;
    while i < z.len && i < x.len
      invariant i <= n && (i > 0 ==> c <= 1)
      invariant OnlyWithin(z.data, z.off, z.off + i)
      invariant SubsWord(First(z, i), c, xs[..i], y)
    {
      assert x.data[x.off + i] == xs[i];
      ghost var before := First(z, i);
      var r := U64Sub(x.data[x.off + i], c, 0);
      SubsWordStep(before, c, xs, i, y, r.0, r.1);
      z.data[z.off + i] := r.0;
      c := r.1;
      assert First(z, i + 1) == before + [r.0];
      i := i + 1;
    }
    TakeAll(xs);
  }

  // ---- natAdd, natSub as written -----------------------------------------------------

  // Carry of addVV and borrow of subVV on the common low words
  ghost function LowCarry(xs: seq<Word>, ys: seq<Word>): (c: Word)
    requires |ys| <= |xs|
    ensures c <= 1
  {
    if Val(xs[..|ys|]) + Val(ys) >= Pow(|ys|) then 1 else 0
  }

  ghost function LowBorrow(xs: seq<Word>, ys: seq<Word>): (c: Word)
    requires |ys| <= |xs|
    ensures c <= 1
  {
    if Val(xs[..|ys|]) < Val(ys) then 1 else 0
  }

  // How far natAdd's result lies above the sum, and natSub's below the difference
  ghost function AddError(xs: seq<Word>, ys: seq<Word>): int
    requires |ys| <= |xs|
  {
    if |ys| == 0 then 0 else Pow(|ys|) * CarryExcess(xs[|ys|..], LowCarry(xs, ys), 0)
  }

  ghost function SubError(xs: seq<Word>, ys: seq<Word>): int
    requires |ys| <= |xs|
  {
    if |ys| == 0 then 0 else Pow(|ys|) * BorrowExcess(xs[|ys|..], LowBorrow(xs, ys), 0)
  }

  // natAdd is exact exactly when no carry leaves the word after the shorter operand,
  // or that word is the last one.
  lemma AddErrorZero(xs: seq<Word>, ys: seq<Word>)
    requires |ys| <= |xs|
    ensures AddError(xs, ys) >= 0
    ensures AddError(xs, ys) == 0 <==>
            |ys| == 0 || |xs| - |ys| <= 1 || LowCarry(xs, ys) == 0 || xs[|ys|] != W - 1
  {
    var n := |ys|;
    var c := LowCarry(xs, ys);
    CarryExcessZero(xs[n..], c);
    var e := CarryExcess(xs[n..], c, 0);
    MulMono(0, e, Pow(n));
    if e > 0 { MulMono(1, e, Pow(n)); }
    assert Pow(n) * e == e * Pow(n);
  }

  lemma SubErrorZero(xs: seq<Word>, ys: seq<Word>)
    requires |ys| <= |xs|
    ensures SubError(xs, ys) >= 0
    ensures SubError(xs, ys) == 0 <==>
            |ys| == 0 || |xs| - |ys| <= 1 || LowBorrow(xs, ys) == 0 || xs[|ys|] != 0
  {
    var n := |ys|;
    var c := LowBorrow(xs, ys);
    BorrowExcessZero(xs[n..], c);
    var e := BorrowExcess(xs[n..], c, 0);
    MulMono(0, e, Pow(n));
    if e > 0 { MulMono(1, e, Pow(n)); }
    assert Pow(n) * e == e * Pow(n);
  }

  // A sum that goes wrong: (W^2 - 1 + 5 W^2) + 1 comes out W^2 too large.
  lemma AddGoesWrong()
    ensures AddError([W - 1, W - 1, 5], [1]) == W * W
  {
    var xs: seq<Word>, ys: seq<Word> := [W - 1, W - 1, 5], [1];
    ValOne(ys);
    ValOne(xs[..1]);
    PowZero();
    NextPow(0);
    assert LowCarry(xs, ys) == 1;
    assert xs[1..] == [W - 1, 5];
    var t: seq<Word> := [W - 1, 5];
    var d := U64Add(t[0], 1, 0);
    assert d.1 == 1;
    assert CarryExcess(t[1..], d.1, d.1) == 0;
    assert CarryExcess(t, 1, 0) == W * 1;
  }

  // A difference that goes wrong: 5 W^2 - 1 comes out W^2 too small.
  lemma SubGoesWrong()
    ensures SubError([0, 0, 5], [1]) == W * W
  {
    var xs: seq<Word>, ys: seq<Word> := [0, 0, 5], [1];
    ValOne(ys);
    ValOne(xs[..1]);
    PowZero();
    NextPow(0);
    assert LowBorrow(xs, ys) == 1;
    assert xs[1..] == [0, 5];
    var t: seq<Word> := [0, 5];
    var d := U64Sub(t[0], 1, 0);
    assert d.1 == 1;
    assert BorrowExcess(t[1..], d.1, d.1) == 0;
    assert BorrowExcess(t, 1, 0) == W * 1;
  }

  // Value of low + high + [c] when low adds up with carry cl and high with carry c and excess e
  lemma JoinSum(low: int, high: int, c: int, x0: int, x1: int, y: int, cl: int, e: int, p: int, q: int)
    requires low + cl * p == x0 + y
    requires high + c * q == x1 + (cl + e)
    ensures low + p * high + c * (p * q) == (x0 + p * x1) + y + p * e
  {
    assert p * (high + c * q) == p * x1 + p * cl + p * e;
    assert p * (high + c * q) == p * high + c * (p * q);
  }

  lemma JoinDifference(low: int, high: int, c: int, x0: int, x1: int, y: int, cl: int, e: int, p: int, q: int)
    requires low - cl * p == x0 - y
    requires high - c * q == x1 - (cl + e)
    ensures low + p * high - c * (p * q) == (x0 + p * x1) - y - p * e
  {
    assert p * (high - c * q) == p * x1 - p * cl - p * e;
    assert p * (high - c * q) == p * high - c * (p * q);
  }

  // The carry of a low part is determined by its value.
  lemma LowCarryIs(zs: seq<Word>, c: Word, xs: seq<Word>, ys: seq<Word>)
    requires |ys| <= |xs| && c <= 1 && AddsTo(zs, c, xs[..|ys|], ys)
    ensures c == LowCarry(xs, ys)
  {
    ValBound(zs);
  }

  lemma LowBorrowIs(zs: seq<Word>, c: Word, xs: seq<Word>, ys: seq<Word>)
    requires |ys| <= |xs| && c <= 1 && SubsTo(zs, c, xs[..|ys|], ys)
    ensures c == LowBorrow(xs, ys)
  {
    ValBound(zs);
  }

  lemma SumOfParts(low: seq<Word>, cl: Word, high: seq<Word>, c: Word, xs: seq<Word>, ys: seq<Word>)
    requires 0 < |ys| <= |xs| && cl <= 1 && AddsTo(low, cl, xs[..|ys|], ys)
    requires (high, c) == CarryRipple(xs[|ys|..], cl, 0)
    ensures Val(low + high + [c]) == Val(xs) + Val(ys) + AddError(xs, ys)
  {
    hide Val, Pow, CarryRipple, CarryExcess, LowCarry;
    var n := |ys|;
    LowCarryIs(low, cl, xs, ys);
    ValSplit(xs, n);
    ValAppend(low, high);
    ValSnoc(low + high, c);
    PowAdd(n, |high|);
    if |xs| == n {
      RippleOfNone(xs[n..], cl);
      ValEmpty(high);
      ValEmpty(xs[n..]);
      NoExcess(xs[n..], cl);
    } else {
      CarryRippleValue(xs[n..], cl, 0);
      JoinSum(Val(low), Val(high), c, Val(xs[..n]), Val(xs[n..]), Val(ys), cl,
              CarryExcess(xs[n..], cl, 0), Pow(n), Pow(|high|));
    }
  }

  lemma NoExcess(xs: seq<Word>, c: Word)
    requires |xs| <= 1
    ensures CarryExcess(xs, c, 0) == 0 && BorrowExcess(xs, c, 0) == 0
  {}

  lemma DifferenceOfParts(low: seq<Word>, cl: Word, high: seq<Word>, c: Word, xs: seq<Word>, ys: seq<Word>)
    requires 0 < |ys| <= |xs| && cl <= 1 && SubsTo(low, cl, xs[..|ys|], ys)
    requires (high, c) == BorrowRipple(xs[|ys|..], cl, 0)
    ensures Val(low + high) - c * Pow(|xs|) == Val(xs) - Val(ys) - SubError(xs, ys)
  {
    hide Val, Pow, BorrowRipple, BorrowExcess, LowBorrow;
    var n := |ys|;
    LowBorrowIs(low, cl, xs, ys);
    ValSplit(xs, n);
    ValAppend(low, high);
    PowAdd(n, |high|);
    if |xs| == n {
      RippleOfNone(xs[n..], cl);
      ValEmpty(high);
      ValEmpty(xs[n..]);
      NoExcess(xs[n..], cl);
    } else {
      BorrowRippleValue(xs[n..], cl, 0);
      JoinDifference(Val(low), Val(high), c, Val(xs[..n]), Val(xs[n..]), Val(ys), cl,
                     BorrowExcess(xs[n..], cl, 0), Pow(n), Pow(|high|));
    }
  }

  // The two loops of natAdd: the common words, then the rest of the longer operand.
  method AddVVThenAddVW(z: Nat, x: Nat, y: Nat)
    returns (c: Word, ghost low: seq<Word>, ghost cl: Word, ghost end: nat)
    requires InBounds(z) && InBounds(x) && InBounds(y) && x.len <= z.len && y.len <= x.len
    requires z.data != x.data && z.data != y.data
    modifies z.data
    ensures var n, m := y.len, x.len;
      && cl <= 1 && AddsTo(low, cl, Words(x)[..n], Words(y)) && low == First(z, n)
      && (First(Part(z, n, m), m - n), c) == CarryRipple(Words(x)[n..], cl, 0)
      && end == n + CarryEnd(Words(x)[n..], cl)
  {
    hide AddsTo, CarryRipple, CarryStop;
    var m, n := x.len, y.len;
    ghost var xs, ys := Words(x), Words(y);
    c := AddVV(Part(z, 0, n), x, y);
    low, cl := First(z, n), c;
    assert First(x, n) == xs[..n] && First(y, n) == ys;
    c, end := HighSum(z, x, n, c);
  }

  method HighSum(z: Nat, x: Nat, n: nat, c: Word) returns (c': Word, ghost end: nat)
    requires InBounds(z) && InBounds(x) && n <= x.len <= z.len && z.data != x.data
    modifies z.data
    ensures First(z, n) == old(First(z, n))
    ensures (First(Part(z, n, x.len), x.len - n), c') == CarryRipple(Words(x)[n..], c, 0)
    ensures end == n + CarryEnd(Words(x)[n..], c)
  {
    hide CarryRipple, CarryStop;
    var m := x.len;
    c', end := c, n;
    if m > n {
      assert First(Part(x, n, m), m - n) == Words(x)[n..];
      c', end := AddVW(Part(z, n, m), Part(x, n, m), c);
      end := n + end;
    } else {
      RippleOfNone(Words(x)[n..], c);
    }
  }

  // The two loops of natSub: the common words, then the rest of the longer operand.
  method SubVVThenSubVW(z: Nat, x: Nat, y: Nat)
    returns (c: Word, ghost low: seq<Word>, ghost cl: Word, ghost end: nat)
    requires InBounds(z) && InBounds(x) && InBounds(y) && x.len <= z.len && y.len <= x.len
    requires z.data != x.data && z.data != y.data
    modifies z.data
    ensures var n, m := y.len, x.len;
      && cl <= 1 && SubsTo(low, cl, Words(x)[..n], Words(y)) && low == First(z, n)
      && (First(Part(z, n, m), m - n), c) == BorrowRipple(Words(x)[n..], cl, 0)
      && end == n + BorrowEnd(Words(x)[n..], cl)
  {
    hide SubsTo, BorrowRipple, BorrowStop;
    var m, n := x.len, y.len;
    ghost var xs, ys := Words(x), Words(y);
    c := SubVV(Part(z, 0, n), x, y);
    low, cl := First(z, n), c;
    assert First(x, n) == xs[..n] && First(y, n) == ys;
    c, end := HighDifference(z, x, n, c);
  }

  method HighDifference(z: Nat, x: Nat, n: nat, c: Word) returns (c': Word, ghost end: nat)
    requires InBounds(z) && InBounds(x) && n <= x.len <= z.len && z.data != x.data
    modifies z.data
    ensures First(z, n) == old(First(z, n))
    ensures (First(Part(z, n, x.len), x.len - n), c') == BorrowRipple(Words(x)[n..], c, 0)
    ensures end == n + BorrowEnd(Words(x)[n..], c)
  {
    hide BorrowRipple, BorrowStop;
    var m := x.len;
    c', end := c, n;
    if m > n {
      assert First(Part(x, n, m), m - n) == Words(x)[n..];
      c', end := SubVW(Part(z, n, m), Part(x, n, m), c);
      end := n + end;
    } else {
      RippleOfNone(Words(x)[n..], c);
    }
  }

  // end is one past the last word of z that is written before its top word is set.
  method NatAdd(x: Nat, y: Nat) returns (z: Nat, ghost end: nat)
    requires InBounds(x) && InBounds(y)
    ensures InBounds(z)
    ensures var xs, ys := Words(x), Words(y);
      Val(Words(z)) == Val(xs) + Val(ys) + (if |xs| < |ys| then AddError(ys, xs) else AddError(xs, ys))
    ensures if x.len == 0 || y.len == 0 then z == (if x.len < y.len then y else x)
            else fresh(z.data) && Normal(Words(z))
    ensures x.len > 0 && y.len > 0 ==>
      end == if x.len < y.len then AddWriteEnd(Words(y), Words(x)) else AddWriteEnd(Words(x), Words(y))
    decreases x.len < y.len
  {
    hide LowCarry, CarryEnd, AddsTo, CarryRipple, AddError, Pow, Val;
    var m, n := x.len, y.len;
    if m < n {
      z, end := NatAdd(y, x);
      return;
    }
    ghost var xs, ys := Words(x), Words(y);
    if m == 0 || n == 0 {
      z, end := x, 0;
      NothingToAdd(xs, ys);
      return;
    }
    z := NewLen(m + 1);
    ghost var low: seq<Word>, cl: Word;
    var c: Word;
    c, low, cl, end := AddVVThenAddVW(z, x, y);
    LowCarryIs(low, cl, xs, ys);
    ghost var high := First(Part(z, n, m), m - n);
    z.data[m] := c;
    assert First(z, n) == low && First(Part(z, n, m), m - n) == high;
    JoinViews(z, n, m);
    SumOfParts(low, cl, high, c, xs, ys);
    z := NatNorm(z);
  }

  lemma JoinViews(z: Nat, n: nat, m: nat)
    requires n <= m <= z.len && InBounds(z)
    ensures First(z, m) == First(z, n) + First(Part(z, n, m), m - n)
    ensures m < z.len ==> First(z, m + 1) == First(z, n) + First(Part(z, n, m), m - n) + [z.data[z.off + m]]
  {}

  lemma NothingToAdd(xs: seq<Word>, ys: seq<Word>)
    requires |ys| == 0
    ensures Val(ys) == 0 && AddError(xs, ys) == 0 && SubError(xs, ys) == 0
  {}

  lemma RippleOfNone(xs: seq<Word>, c: Word)
    requires |xs| == 0
    ensures CarryRipple(xs, c, 0) == ([], c) && BorrowRipple(xs, c, 0) == ([], c)
  {}

  // c is what the final assert compares with 0.
  method NatSub(x: Nat, y: Nat) returns (z: Nat, c: Word, ghost end: nat)
    requires InBounds(x) && InBounds(y) && x.len >= y.len
    ensures InBounds(z)
    ensures var xs, ys := Words(x), Words(y);
      Val(Words(z)) - c * Pow(|xs|) == Val(xs) - Val(ys) - SubError(xs, ys)
    ensures if y.len == 0 then z == x else fresh(z.data) && Normal(Words(z)) && end == SubWriteEnd(Words(x), Words(y))
  {
    hide LowBorrow, BorrowEnd, SubsTo, BorrowRipple, SubError, Pow, Val;
    var m, n := x.len, y.len;
    ghost var xs, ys := Words(x), Words(y);
    if m == 0 || n == 0 {
      z, c, end := x, 0, 0;
      NothingToAdd(xs, ys);
      return;
    }
    z := NewLen(m);
    ghost var low: seq<Word>, cl: Word;
    c, low, cl, end := SubVVThenSubVW(z, x, y);
    LowBorrowIs(low, cl, xs, ys);
    JoinViews(z, n, m);
    DifferenceOfParts(low, cl, First(Part(z, n, m), m - n), c, xs, ys);
    z := NatNorm(z);
  }

  // For x >= y, natSub delivers x - y without tripping its assert exactly when SubError is 0.
  lemma SubExactIff(zs: seq<Word>, c: Word, xs: seq<Word>, ys: seq<Word>)
    requires |ys| <= |xs| && |zs| <= |xs| && Val(xs) >= Val(ys)
    requires Val(zs) - c * Pow(|xs|) == Val(xs) - Val(ys) - SubError(xs, ys)
    ensures c == 0 && Val(zs) == Val(xs) - Val(ys) <==> SubError(xs, ys) == 0
  {
    ValBound(zs);
    PowMono(|zs|, |xs|);
    NoBorrow(Val(zs), c, Pow(|xs|), Val(xs) - Val(ys), SubError(xs, ys));
  }

  lemma NoBorrow(z: int, c: Word, p: int, d: int, e: int)
    requires 0 <= z < p && d >= 0 && z - c * p == d - e
    ensures c == 0 && z == d <==> e == 0
  {
    if c > 0 { MulMono(1, c, p); }
  }

  // ---- where the copies of natAdd and natSub end ---------------------------------------------
  // addVWlarge and subVWlarge copy x.len words from the word on where their loop stops, also those
  // that lie behind the n words of z and x.

  // One past the last word of z that natSub and natAdd write before they set the top word
  ghost function SubWriteEnd(xs: seq<Word>, ys: seq<Word>): nat
    requires |ys| <= |xs|
  {
    |ys| + BorrowEnd(xs[|ys|..], LowBorrow(xs, ys))
  }

  ghost function AddWriteEnd(xs: seq<Word>, ys: seq<Word>): nat
    requires |ys| <= |xs|
  {
    |ys| + CarryEnd(xs[|ys|..], LowCarry(xs, ys))
  }

  // natSub has |xs| words for its result. It stays inside them if and only if the copy is not taken,
  // nothing is borrowed, or the borrow goes through to the last word.
  lemma NatSubStaysInside(xs: seq<Word>, ys: seq<Word>)
    requires |ys| <= |xs|
    ensures var high := xs[|ys|..];
      SubWriteEnd(xs, ys) <= |xs| <==>
        || |high| <= 32 || LowBorrow(xs, ys) == 0
        || forall j :: 0 <= j < |high| - 1 ==> high[j] < if j == 0 then 1 else 2
  {
    hide LowBorrow, BorrowStop;
    var high, c := xs[|ys|..], LowBorrow(xs, ys);
    if |high| > 32 {
      FirstStep(high, c);
      if c > 0 { BorrowStopsAtEnd(high, c, 0); }
    }
  }

  // natAdd has one word more, and sets it afterwards, so the carry may also stop in the first word.
  lemma NatAddStaysInside(xs: seq<Word>, ys: seq<Word>)
    requires |ys| <= |xs|
    ensures var high := xs[|ys|..];
      AddWriteEnd(xs, ys) <= |xs| + 1 <==>
        || |high| <= 32 || LowCarry(xs, ys) == 0 || high[0] < W - 1
        || forall j :: 0 <= j < |high| - 1 ==> high[j] + (if j == 0 then 1 else 2) >= W
  {
    hide LowCarry, CarryStop;
    var high, c := xs[|ys|..], LowCarry(xs, ys);
    if |high| > 32 {
      FirstStep(high, c);
      if c > 0 { CarryStopsAtEnd(high, c, 0); }
    }
  }

  lemma FirstStep(xs: seq<Word>, c: Word)
    requires |xs| > 1 && c <= 1
    ensures CarryStop(xs, c, 0) == 0 <==> c == 0
    ensures BorrowStop(xs, c, 0) == 0 <==> c == 0
    ensures c == 1 ==> (CarryStop(xs, c, 0) <= 1 <==> xs[0] < W - 1)
  {
    if c == 1 {
      var d := U64Add(xs[0], 1, 0);
      assert d.1 == if xs[0] < W - 1 then 0 else 1;
      assert |xs[1..]| > 0;
    }
  }

  // 34 words less 1 with a borrow that stops in the word after the first: one word too many
  lemma NatSubOverruns()
    ensures var xs := [0 as Word] + seq(33, i => 1 as Word);
      SubWriteEnd(xs, [1]) == |xs| + 1
  {
    var ys: seq<Word> := [1];
    var high: seq<Word> := seq(33, i => 1);
    var xs: seq<Word> := [0] + high;
    assert xs[1..] == high && xs[..1] == [0];
    ValOne(ys);
    ValOne(xs[..1]);
    var d := U64Sub(high[0], 1, 0);
    assert d.1 == 0 && BorrowStop(high[1..], 0, 0) == 0;
    assert BorrowStop(high, 1, 0) == 1;
  }

  // 34 words plus 1 with a carry that stops in the second word after the first: one word too many
  lemma NatAddOverruns()
    ensures var xs := [W - 1 as Word, W - 1] + seq(32, i => 0 as Word);
      AddWriteEnd(xs, [1]) == |xs| + 2
  {
    var ys: seq<Word> := [1];
    var high: seq<Word> := [W - 1] + seq(32, i => 0);
    var xs: seq<Word> := [W - 1, W - 1] + seq(32, i => 0);
    assert xs[1..] == high && xs[..1] == [W - 1];
    ValOne(ys);
    ValOne(xs[..1]);
    PowZero();
    NextPow(0);
    var rest := high[1..];
    var d, e := U64Add(high[0], 1, 0), U64Add(rest[0], 1, 1);
    assert d.1 == 1 && e.1 == 0 && CarryStop(rest[1..], 0, 0) == 0;
    assert CarryStop(rest, 1, 1) == 1;
    assert CarryStop(high, 1, 0) == 2;
  }
}
