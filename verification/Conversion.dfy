/** cmake/bigint/src/natconv.c, second part: divide and conquer conversion to digits. */
module Conversion {
  import opened Bits
  import opened Nats
  import opened WordDiv
  import opened Division
  import opened Positional
  import opened RadixTable

  // Only positions lo .. hi of the character buffer have changed.
  twostate predicate CharsWithin(s: array<char>, lo: int, hi: int)
    reads s
  {
    forall k :: 0 <= k < s.Length && (k < lo || hi <= k) ==> s[k] == old(s[k])
  }

  // Of the n digits of x, tail holds the last n - i; the others are the digits of q.
  ghost predicate Converted(tail: string, x: nat, b: Radix, n: nat, q: nat, i: nat) {
    i <= n && q < Power(b, i) && Digits(x, b, n) == Digits(q, b, i) + tail
  }

  lemma ConvertStart(x: nat, b: Radix, n: nat)
    requires x < Power(b, n)
    ensures Converted("", x, b, n, x, n)
  {
    hide Power;
    assert Digits(x, b, n) + "" == Digits(x, b, n);
  }

  // k more digits: those of the remainder by b^k
  lemma ConvertBlock(tail: string, x: nat, b: Radix, n: nat, q: nat, i: nat, q': nat, r: nat, k: nat)
    requires Converted(tail, x, b, n, q, i) && k <= i
    requires q == q' * Power(b, k) + r && r < Power(b, k)
    ensures Converted(Digits(r, b, k) + tail, x, b, n, q', i - k)
  {
    hide Power, Digits;
    DigitsSplit(q, q', r, b, i - k, k);
    PowerAdd(b, i - k, k);
    CancelLt(q', Power(b, i - k), Power(b, k));
    assert Digits(q', b, i - k) + (Digits(r, b, k) + tail) == Digits(q', b, i - k) + Digits(r, b, k) + tail;
  }

  lemma ConvertDigit(tail: string, x: nat, b: Radix, n: nat, q: nat, i: nat, q': nat, d: nat)
    requires Converted(tail, x, b, n, q, i) && i > 0 && q == q' * b + d && d < b
    ensures Converted([DigitChar(d)] + tail, x, b, n, q', i - 1)
  {
    hide Converted, DigitChar, Digits;
    OneDigit(d, b);
    OnePower(b);
    hide Power;
    ConvertBlock(tail, x, b, n, q, i, q', d, 1);
  }

  // As long as something is left, there is room for it.
  lemma RoomLeft(tail: string, x: nat, b: Radix, n: nat, q: nat, i: nat)
    requires Converted(tail, x, b, n, q, i)
    ensures i == 0 ==> q == 0 && Digits(x, b, n) == tail
  {}

  // ---- the digits of one word --------------------------------------------------------------

  // The digits of r, then zeros up to the digits of nq: v = nq * b^k + r is what is left.
  ghost predicate Emitting(tail: string, x: nat, b: Radix, n: nat, nq: nat, k: nat, r: nat, i: nat) {
    r < Power(b, k) && nq * Power(b, k) + r >= 0 && Converted(tail, x, b, n, nq * Power(b, k) + r, i)
  }

  lemma EmitStep(tail: string, x: nat, b: Radix, n: nat, nq: nat, k: nat, r: nat, i: nat, r': nat, d: nat)
    requires k > 0 && i > 0 && r == r' * b + d && d < b
    requires Emitting(tail, x, b, n, nq, k, r, i)
    ensures Emitting([DigitChar(d)] + tail, x, b, n, nq, k - 1, r', i - 1)
  {
    hide Converted, DigitChar;
    PowerStep(b, k);
    hide Power;
    EmitLast(tail, x, b, n, nq, Power(b, k - 1), Power(b, k), r, i, r', d);
  }

  lemma EmitLast(tail: string, x: nat, b: Radix, n: nat, nq: nat, p: nat, bp: nat, r: nat, i: nat, r': nat, d: nat)
    requires i > 0 && bp == b * p && r < bp && r == r' * b + d && d < b
    requires nq * bp + r >= 0 && Converted(tail, x, b, n, nq * bp + r, i)
    ensures r' < p && nq * p + r' >= 0
    ensures Converted([DigitChar(d)] + tail, x, b, n, nq * p + r', i - 1)
  {
    hide *;
    MulMono(0, nq, p);
    CancelLt(r', p, b);
    assert (nq * p + r') * b + d == nq * (b * p) + r;
    ConvertDigit(tail, x, b, n, nq * bp + r, i, nq * p + r', d);
  }

  lemma EmitEnd(tail: string, x: nat, b: Radix, n: nat, nq: nat, k: nat, r: nat, i: nat)
    requires k == 0 || i == 0
    requires Emitting(tail, x, b, n, nq, k, r, i)
    ensures Converted(tail, x, b, n, nq, i)
  {
    PowerPositive(b, k);
    RoomLeft(tail, x, b, n, nq * Power(b, k) + r, i);
    if nq > 0 { MulMono(1, nq, Power(b, k)); }
    hide Digits;
  }

  method EmitDecimal(s: array<char>, off: nat, slen: nat, ndigits: nat, word: Word, ghost x: nat, ghost n: nat,
                     ghost nq: nat)
    returns (i: nat)
    requires slen <= n && off + n <= s.Length
    requires Emitting(s[off + slen..off + n], x, 10, n, nq, ndigits, word, slen)
    modifies s
    ensures i <= slen && CharsWithin(s, off + i, off + slen)
    ensures Converted(s[off + i..off + n], x, 10, n, nq, i)
  {
    hide Emitting, DigitChar;
    i := slen;
    var r: nat := word;
    var j := 0;
    while j < ndigits && i > 0
      invariant j <= ndigits && i == slen - j && CharsWithin(s, off + i, off + slen)
      invariant Emitting(s[off + i..off + n], x, 10, n, nq, ndigits - j, r, i)
    {
      ghost var tail := s[off + i..off + n];
      DivisionParts(r, 10);
      EmitStep(tail, x, 10, n, nq, ndigits - j, r, i, r / 10, r % 10);
      DigitRoundTrip(r % 10);
      i := i - 1;
      var t := r / 10;
      s[off + i] := ('0' as int + (r - t * 10)) as char;
      assert s[off + i..off + n] == [DigitChar(r % 10)] + tail;
      r := t;
      j := j + 1;
    }
    EmitEnd(s[off + i..off + n], x, 10, n, nq, ndigits - j, r, i);
  }

  method EmitDigits(s: array<char>, off: nat, slen: nat, b: Radix, ndigits: nat, word: Word, ghost x: nat,
                    ghost n: nat, ghost nq: nat)
    returns (i: nat)
    requires slen <= n && off + n <= s.Length
    requires Emitting(s[off + slen..off + n], x, b, n, nq, ndigits, word, slen)
    modifies s
    ensures i <= slen && CharsWithin(s, off + i, off + slen)
    ensures Converted(s[off + i..off + n], x, b, n, nq, i)
  {
    hide Emitting, DigitChar;
    i := slen;
    var r: nat := word;
    var j := 0;
    while j < ndigits && i > 0
      invariant j <= ndigits && i == slen - j && CharsWithin(s, off + i, off + slen)
      invariant Emitting(s[off + i..off + n], x, b, n, nq, ndigits - j, r, i)
    {
      ghost var tail := s[off + i..off + n];
      DivisionParts(r, b);
      EmitStep(tail, x, b, n, nq, ndigits - j, r, i, r / b, r % b);
      i := i - 1;
      s[off + i] := DigitChar(r % b);
      assert s[off + i..off + n] == [DigitChar(r % b)] + tail;
      r := r / b;
      j := j + 1;
    }
    EmitEnd(s[off + i..off + n], x, b, n, nq, ndigits - j, r, i);
  }

  // ---- the leaf loop -----------------------------------------------------------------------

  lemma EmitStart(tail: string, x: nat, b: Radix, n: nat, nd: nat, bb: nat, q: nat, nq: nat, r: nat, i: nat)
    requires Converted(tail, x, b, n, q, i) && bb == Power(b, nd) && q == nq * bb + r && r < bb
    ensures Emitting(tail, x, b, n, nq, nd, r, i)
  {
    hide Converted, Power;
    MulMono(0, nq, bb);
  }

  // Word after word of digits, then zeros up to the front
  method Leaf(x: Nat, s: array<char>, off: nat, slen: nat, b: Radix, ndigits: nat, bb: Word, ghost v: nat, ghost n: nat)
    requires InBounds(x) && Printable(Words(x)) && bb == Power(b, ndigits) > 1
    requires slen <= n && off + n <= s.Length && Val(Words(x)) >= 0
    requires Converted(s[off + slen..off + n], v, b, n, Val(Words(x)), slen)
    modifies s
    ensures CharsWithin(s, off, off + slen) && s[off..off + n] == Digits(v, b, n)
  {
    hide Val, Power, Emitting, Converted, Digits, DigitChar, Printable, Normal;
    var q := x;
    var i := slen;
    while q.len > 0
      invariant 0 <= i <= slen && InBounds(q) && Printable(Words(q)) && Val(Words(q)) >= 0
      invariant CharsWithin(s, off + i, off + slen)
      invariant Converted(s[off + i..off + n], v, b, n, Val(Words(q)), i)
      decreases Val(Words(q)), q.len
    {
      ghost var qv := Val(Words(q));
      var nq: Nat, r: Word;
      nq, r := NatDivW(q, bb, 0);
      ghost var nv := Val(Words(nq));
      SmallerQuotient(qv, bb, nv, r);
      PrintableQuotient(Words(q), Words(nq));
      EmitStart(s[off + i..off + n], v, b, n, ndigits, bb, qv, nv, r, i);
      if b == 10 {
        i := EmitDecimal(s, off, i, ndigits, r, v, n, nv);
      } else {
        i := EmitDigits(s, off, i, b, ndigits, r, v, n, nv);
      }
      q := nq;
    }
    ValEmpty(Words(q));
    while i > 0
      invariant 0 <= i <= slen && CharsWithin(s, off + i, off + slen)
      invariant Converted(s[off + i..off + n], v, b, n, 0, i)
    {
      ghost var tail := s[off + i..off + n];
      DigitRoundTrip(0);
      ConvertDigit(tail, v, b, n, 0, i, 0, 0);
      i := i - 1;
      s[off + i] := '0';
      assert s[off + i..off + n] == ['0'] + tail;
    }
    RoomLeft(s[off..off + n], v, b, n, 0, 0);
  }

  lemma NormalPositive(s: seq<Word>)
    requires Normal(s) && |s| > 0
    ensures Val(s) > 0
  {
    NormalLow(s);
  }

  lemma DivisionParts(r: nat, b: Radix)
    ensures r == (r / b) * b + r % b && 0 <= r % b < b && r / b >= 0
  {
    DivBounds(r, b);
  }

  lemma SmallerQuotient(q: int, d: int, q': int, r: int)
    requires q' * d + r == q >= 0 && d > 1 && 0 <= r < d
    ensures 0 <= q' <= q && (q > 0 ==> q' < q)
  {
    CancelLt(-1, q', d);
    if q' >= q && q' > 0 { MulMono(2, d, q'); }
  }

  // What natI2a is given: a normalised number, or the one word 0 that natNew(0) makes
  ghost predicate Printable(s: seq<Word>) {
    Normal(s) || s == [0]
  }

  lemma PrintableQuotient(s: seq<Word>, t: seq<Word>)
    requires Printable(s) && |s| > 0 && Normal(t) && (Val(s) > 0 ==> Val(t) < Val(s)) && 0 <= Val(t) <= Val(s)
    ensures Printable(t) && (Val(t) < Val(s) || (Val(t) == Val(s) && |t| < |s|))
  {
    if s == [0] {
      ValOne(s);
      if |t| > 0 { NormalPositive(t); }
    } else {
      NormalPositive(s);
    }
  }

  // ---- convertWords ------------------------------------------------------------------------

  // The entry to divide by: lines 206-214, where index never goes below 0. It is the lowest entry i up
  // to start with no entry of more than half of q's bits below it, or the one before if that is not below q.
  method PickEntry(q: Nat, table: seq<TableEntry>, start: nat, b: Radix) returns (index: nat, ghost i: nat)
    requires InBounds(q) && Normal(Words(q)) && q.len > LEAF_SIZE
    requires start < |table| && TableOk(table, b)
    ensures index <= start && Val(Words(table[index].bbb)) < Val(Words(q))
    ensures var half := WordsBitLen(Words(q)) / 2;
      && i <= start && (forall j :: i <= j < start ==> table[j].nbits > half)
      && (i > 0 ==> table[i - 1].nbits <= half)
      && index == if Val(Words(table[i].bbb)) >= Val(Words(q)) then i - 1 else i
  {
    hide Val, Normal, WordsBitLen, Power;
    ghost var qs := Words(q);
    var maxLen := NatBitLen(q);
    var minLen := maxLen / 2;
    SomeBits(qs);
    index := start;
    while index > 0 && table[index - 1].nbits > minLen
      invariant 0 <= index <= start && forall j :: index <= j < start ==> table[j].nbits > minLen
    {
      index := index - 1;
    }
    i := index;
    LongerIsLarger(qs, Words(table[0].bbb));
    if index > 0 { FewerBitsSmaller(Words(table[index - 1].bbb), qs); }
    if table[index].nbits >= maxLen {
      var order := NatCmp(table[index].bbb, q);
      CmpIsValueOrder(Words(table[index].bbb), qs);
      if order >= 0 {
        index := index - 1;
      }
    } else {
      FewerBitsSmaller(Words(table[index].bbb), qs);
    }
  }

  lemma SomeBits(s: seq<Word>)
    requires Normal(s) && |s| > 0
    ensures WordsBitLen(s) > 0
  {
    BitLenBrackets(s);
  }

  // One division by a table entry: the low ndigits digits are those of the remainder.
  method SplitOff(q0: Nat, r0: Nat, e: TableEntry, b: Radix) returns (q: Nat, r: Nat)
    requires Storage(q0) && InBounds(q0) && Normal(Words(q0)) && Storage(r0) && q0.data != r0.data
    requires EntryOk(e, b) && q0.data != e.bbb.data && r0.data != e.bbb.data
    modifies q0.data, r0.data
    ensures Storage(q) && InBounds(q) && Normal(Words(q)) && (q.data == q0.data || fresh(q.data))
    ensures Storage(r) && InBounds(r) && Normal(Words(r)) && (r.data == r0.data || fresh(r.data)) && q.data != r.data
    ensures var p := Power(b, e.ndigits);
      && Val(old(Words(q0))) == Val(Words(q)) * p + Val(Words(r))
      && 0 <= Val(Words(r)) < p && 0 <= Val(Words(q)) && p >= W
  {
    hide Val, Power, Normal, WordsBitLen;
    ghost var x, p := Val(Words(q0)), Power(b, e.ndigits);
    LargeDivisor(Words(e.bbb));
    ValBound(Words(q0));
    ghost var wrong;
    q, r, wrong := NatDiv(q0, r0, q0, e.bbb, 0);
    DivBounds(x, p);
  }

  lemma LargeDivisor(s: seq<Word>)
    requires Val(s) >= W
    ensures |s| > 0 && s != [1]
  {
    if |s| == 1 { ValOne(s); }
  }

  // h never becomes negative: an entry below q has fewer digits than there is room for.
  lemma EntryFits(tail: string, x: nat, b: Radix, n: nat, q: nat, i: nat, nd: nat)
    requires Converted(tail, x, b, n, q, i) && Power(b, nd) < q
    ensures nd < i
  {
    hide Power, Digits;
    PowerExponent(b, nd, i);
  }

  // One round of the loop: divide by an entry and convert the remainder behind the quotient.
  method OneBlock(q0: Nat, r0: Nat, s: array<char>, off: nat, slen: nat, b: Radix, ndigits: nat, bb: Word,
                  table: seq<TableEntry>, start: nat, ghost x: nat, ghost n: nat)
    returns (q: Nat, r: Nat, h: nat, index: nat)
    requires Storage(q0) && InBounds(q0) && Normal(Words(q0)) && q0.len > LEAF_SIZE
    requires Storage(r0) && q0.data != r0.data && q0.data !in TableData(table) && r0.data !in TableData(table)
    requires bb == Power(b, ndigits) > 1 && TableOk(table, b) && start < |table|
    requires slen <= n && off + n <= s.Length && 0 <= Val(Words(q0))
    requires Converted(s[off + slen..off + n], x, b, n, Val(Words(q0)), slen)
    modifies s, q0.data, r0.data
    ensures Storage(q) && InBounds(q) && Normal(Words(q)) && 0 <= Val(Words(q)) < old(Val(Words(q0)))
    ensures Storage(r) && q.data != r.data
    ensures (q.data == q0.data || fresh(q.data)) && (r.data == r0.data || fresh(r.data))
    ensures h <= slen && index <= start && CharsWithin(s, off + h, off + slen)
    ensures Converted(s[off + h..off + n], x, b, n, Val(Words(q)), h)
    decreases |table|, 0
  {
    hide Val, Power, Converted, Digits, DigitChar, Normal, RemainderUnset, WordsBitLen;
    ghost var tail, qv := s[off + slen..off + n], Val(Words(q0));
    ghost var first: nat;
    index, first := PickEntry(q0, table, start, b);
    var e := table[index];
    EntryFits(tail, x, b, n, qv, slen, e.ndigits);
    h := slen - e.ndigits;
    EntryLength(table, index, b);
    q, r := SplitOff(q0, r0, e, b);
    ghost var qn, rv := Val(Words(q)), Val(Words(r));
    ConvertBlock(tail, x, b, n, qv, slen, qn, rv, e.ndigits);
    SmallerQuotient(qv, Power(b, e.ndigits), qn, rv);
    assert TableOk(table[..index], b);
    RemainderShort(Words(r), Words(e.bbb));
    NormalPrints(Words(r));
    ConvertWords(r, s, off + h, e.ndigits, b, ndigits, bb, table[..index]);
    assert s[off + slen..off + n] == tail;
    assert s[off + h..off + n] == s[off + h..off + slen] + s[off + slen..off + n];
  }

  lemma LongIsNormal(s: seq<Word>)
    requires Printable(s) && |s| > 1
    ensures Normal(s)
  {}

  lemma NormalPrints(s: seq<Word>)
    requires Normal(s)
    ensures Printable(s)
  {}

  lemma RemainderShort(r: seq<Word>, d: seq<Word>)
    requires Normal(r) && Val(r) < Val(d)
    ensures |r| <= |d|
  {
    if |r| > |d| { LongerIsLarger(r, d); }
  }

  lemma EntryLength(table: seq<TableEntry>, index: nat, b: Radix)
    requires TableOk(table, b) && index < |table|
    ensures index == 0 ==> table[index].bbb.len <= LEAF_SIZE
    ensures EntryOk(table[index], b) && table[index].bbb.data in TableData(table)
  {}

  // Recursion writes the remainder's digits behind those of the quotient. No table (NULL) is the
  // empty sequence: then x has at most LEAF_SIZE words and the loop would not run.
  method ConvertWords(x: Nat, s: array<char>, off: nat, slen: nat, b: Radix, ndigits: nat, bb: Word,
                      table: seq<TableEntry>)
    requires InBounds(x) && Printable(Words(x)) && bb == Power(b, ndigits) > 1
    requires TableOk(table, b) && (|table| == 0 ==> x.len <= LEAF_SIZE)
    requires off + slen <= s.Length && 0 <= Val(Words(x)) < Power(b, slen)
    modifies s
    ensures CharsWithin(s, off, off + slen)
    ensures s[off..off + slen] == Digits(Val(old(Words(x))), b, slen)
    decreases |table|, 1
  {
    hide Val, Power, Converted, Digits, DigitChar, Printable, Normal, RemainderUnset, WordsBitLen;
    ghost var v: nat := Val(Words(x));
    var q := NatDup(x);
    var i := slen;
    ConvertStart(v, b, slen);
    assert s[off + i..off + slen] == "";
    if |table| > 0 {
      var index := |table| - 1;
      var r := NewLen(0);
      while q.len > LEAF_SIZE
        invariant 0 <= index < |table| && TableOk(table, b)
        invariant Storage(q) && InBounds(q) && fresh(q.data) && Printable(Words(q)) && Val(Words(q)) >= 0
        invariant Storage(r) && fresh(r.data) && q.data != r.data
        invariant 0 <= i <= slen && CharsWithin(s, off + i, off + slen)
        invariant Converted(s[off + i..off + slen], v, b, slen, Val(Words(q)), i)
        decreases Val(Words(q))
      {
        LongIsNormal(Words(q));
        q, r, i, index := OneBlock(q, r, s, off, i, b, ndigits, bb, table, index, v, slen);
        NormalPrints(Words(q));
      }
    }
    Leaf(q, s, off, i, b, ndigits, bb, v, slen);
  }
}
