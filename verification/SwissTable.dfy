/** cmake/swissmap/swissmap.h: the control bytes, the probe sequence and the growth allowance.
    Everything here is about the contents of the two arrays; SwissMap.dfy has the class. */
module SwissTable {
  import opened Bits

  // Ctrl: a full byte holds the low seven bits of the hash
  const EMPTY: int := -128
  const DELETED: int := -2
  const SENTINEL: int := -1
  const WIDTH: nat := 16

  datatype Slot<K, V> = Raw | Live(key: K, value: V)

  ghost predicate SlotByte(b: int) {
    0 <= b < 128 || b == EMPTY || b == DELETED
  }

  // The marks are the bytes 1000 0000, 1111 1110 and 1111 1111. The sign tells them from full
  // bytes, and only Empty and Deleted lie below the sentinel.
  lemma Marks(b: int)
    ensures EMPTY + 256 == 0x80 && DELETED + 256 == 0xFE && SENTINEL + 256 == 0xFF
    ensures SlotByte(b) ==> -128 <= b < 128 && (b < SENTINEL <==> b == EMPTY || b == DELETED)
  {}

  // ---- control bytes -----------------------------------------------------------------------

  // cap slot bytes, the sentinel, then clones of the first slot bytes; past those, for small
  // tables, bytes that are always Empty
  ghost predicate CtrlOk(c: seq<int>, cap: nat) {
    && |c| == cap + 16 && c[cap] == SENTINEL
    && (cap < 15 ==> cap <= 7) && (cap >= 15 ==> (cap + 1) % 16 == 0)
    && (forall i :: 0 <= i < cap ==> SlotByte(c[i]))
    && (forall p {:trigger c[p]} :: cap < p <= 2 * cap && p < cap + 16 ==> c[p] == c[p - cap - 1])
    && (forall p :: 2 * cap < p < cap + 16 ==> c[p] == EMPTY)
  }

  // setCtrl
  function Set(c: seq<int>, cap: nat, i: nat, h: int): (d: seq<int>)
    requires |c| == cap + 16 && i < cap
    ensures |d| == |c|
  {
    var d := c[i := h];
    if i < WIDTH - 1 then d[i + cap + 1 := h] else d
  }

  lemma SetKeepsCtrl(c: seq<int>, cap: nat, i: nat, h: int)
    requires CtrlOk(c, cap) && i < cap && SlotByte(h)
    ensures CtrlOk(Set(c, cap, i, h), cap)
    ensures forall k :: 0 <= k < cap ==> Set(c, cap, i, h)[k] == if k == i then h else c[k]
  {}

  // The slot a position in a window stands for: positions from cap + 1 on are clones
  function Wrap(p: nat, cap: nat): (i: nat)
    ensures i <= cap
  {
    p % (cap + 1)
  }

  // A byte in a window belongs to the slot its position wraps around to, unless it is one of the
  // always Empty bytes.
  lemma ByteAt(c: seq<int>, cap: nat, p: nat)
    requires CtrlOk(c, cap) && p < cap + 16
    ensures p <= 2 * cap ==> c[p] == c[Wrap(p, cap)] && (c[p] != SENTINEL ==> Wrap(p, cap) < cap)
    ensures p > 2 * cap ==> c[p] == EMPTY
  {
    if p <= cap {
      DivModUnique(p, cap + 1, 0, p);
    } else if p <= 2 * cap {
      DivModUnique(p, cap + 1, 1, p - cap - 1);
    }
  }

  // ---- the probe sequence ------------------------------------------------------------------

  // Where group t of a probe that starts at home begins
  function Start(home: nat, t: nat, cap: nat): (p: nat)
    ensures p <= cap
  {
    (home + WIDTH * t) % (cap + 1)
  }

  // How far the probe has to go from home to slot i
  function Dist(home: nat, i: nat, cap: nat): (d: nat)
    requires home <= cap && i <= cap
    ensures d <= cap
  {
    if i >= home then i - home else i + cap + 1 - home
  }

  function Groups(cap: nat): nat { if cap < 15 then 1 else (cap + 1) / WIDTH }

  lemma FirstStart(home: nat, cap: nat)
    requires home <= cap
    ensures Start(home, 0, cap) == home
  {
    DivModUnique(home, cap + 1, 0, home);
  }

  lemma NextStart(home: nat, t: nat, cap: nat)
    ensures Start(home, t + 1, cap) == Wrap(Start(home, t, cap) + WIDTH, cap)
  {
    AddMod(home + WIDTH * t, WIDTH, cap + 1);
  }

  lemma AddMod(x: nat, r: nat, n: nat)
    requires n > 0
    ensures (x % n + r) % n == (x + r) % n
  {
    var a, b := x / n, (x + r) / n;
    DivBounds(x, n);
    DivBounds(x + r, n);
    assert x == a * n + x % n && x + r == b * n + (x + r) % n;
    assert (b - a) * n == b * n - a * n;
    DivModUnique(x % n + r, n, b - a, (x + r) % n);
  }

  // Slot i is in group Dist / 16 of the probe from home, at offset Dist % 16.
  lemma GroupOf(home: nat, i: nat, cap: nat)
    requires home <= cap && i <= cap
    requires (cap < 15 ==> cap <= 7) && (cap >= 15 ==> (cap + 1) % 16 == 0)
    ensures var d := Dist(home, i, cap);
      var p := Start(home, d / WIDTH, cap) + d % WIDTH;
      Wrap(p, cap) == i && p < cap + 16 && p <= 2 * cap && d / WIDTH < Groups(cap)
  {
    hide Start, Groups;
    var d := Dist(home, i, cap);
    var t, o := d / WIDTH, d % WIDTH;
    GroupBounds(home, d, cap);
    StartPlus(home, t, o, cap);
    DivModUnique(home + d, cap + 1, if i >= home then 0 else 1, i);
  }

  lemma StartPlus(home: nat, t: nat, o: nat, cap: nat)
    ensures (Start(home, t, cap) + o) % (cap + 1) == (home + (WIDTH * t + o)) % (cap + 1)
  {
    AddMod(home + WIDTH * t, o, cap + 1);
  }

  lemma GroupBounds(home: nat, d: nat, cap: nat)
    requires home <= cap && d <= cap
    requires (cap < 15 ==> cap <= 7) && (cap >= 15 ==> (cap + 1) % 16 == 0)
    ensures var p := Start(home, d / WIDTH, cap) + d % WIDTH;
      p < cap + 16 && p <= 2 * cap && d / WIDTH < Groups(cap)
  {
    if cap < 15 {
      assert d / WIDTH == 0 && d % WIDTH == d;
      DivModUnique(home, cap + 1, 0, home);
    } else {
      hide Start;
    }
  }

  // The other way round: what a window shows at offset o of group t lies 16 t + o behind home.
  lemma DistOf(home: nat, t: nat, o: nat, cap: nat)
    requires home <= cap && cap >= 15 && (cap + 1) % 16 == 0 && t < Groups(cap) && o < WIDTH
    ensures Dist(home, Wrap(Start(home, t, cap) + o, cap), cap) / WIDTH == t
  {
    StartPlus(home, t, o, cap);
    var d := WIDTH * t + o;
    assert d <= cap;
    if home + d <= cap {
      DivModUnique(home + d, cap + 1, 0, home + d);
    } else {
      DivModUnique(home + d, cap + 1, 1, home + d - cap - 1);
    }
  }

  ghost predicate NoEmpty(c: seq<int>, start: nat)
    requires start + 16 <= |c|
  {
    forall p :: start <= p < start + 16 ==> c[p] != EMPTY
  }

  // No group before the one that shows slot i shows an Empty byte.
  ghost predicate Reached(c: seq<int>, cap: nat, home: nat, i: nat)
    requires |c| == cap + 16 && home <= cap && i <= cap
  {
    forall t: nat :: t < Dist(home, i, cap) / WIDTH ==> NoEmpty(c, Start(home, t, cap))
  }

  // Setting a byte to anything but Empty hides no slot.
  lemma SetKeepsReached(c: seq<int>, cap: nat, i: nat, h: int, home: nat, k: nat)
    requires CtrlOk(c, cap) && i < cap && h != EMPTY && home <= cap && k <= cap && Reached(c, cap, home, k)
    ensures Reached(Set(c, cap, i, h), cap, home, k)
  {
    forall t: nat | t < Dist(home, k, cap) / WIDTH
      ensures NoEmpty(Set(c, cap, i, h), Start(home, t, cap))
    {
      assert NoEmpty(c, Start(home, t, cap));
    }
  }

  // ---- counting ----------------------------------------------------------------------------

  // How many of the first n bytes lie in lo .. hi
  function Count(c: seq<int>, n: nat, lo: int, hi: int): (k: nat)
    requires n <= |c|
    ensures k <= n
  {
    if n == 0 then 0 else Count(c, n - 1, lo, hi) + if lo <= c[n - 1] <= hi then 1 else 0
  }

  function Fulls(c: seq<int>, n: nat): nat requires n <= |c| { Count(c, n, 0, 127) }
  function Empties(c: seq<int>, n: nat): nat requires n <= |c| { Count(c, n, EMPTY, EMPTY) }
  function Tombs(c: seq<int>, n: nat): nat requires n <= |c| { Count(c, n, DELETED, DELETED) }

  function In(b: int, lo: int, hi: int): int { if lo <= b <= hi then 1 else 0 }

  lemma {:induction false} CountSet(c: seq<int>, d: seq<int>, n: nat, i: nat, lo: int, hi: int)
    requires n <= |c| == |d| && i < |c| && forall k :: 0 <= k < n ==> d[k] == if k == i then d[i] else c[k]
    ensures Count(d, n, lo, hi) == Count(c, n, lo, hi) + if i < n then In(d[i], lo, hi) - In(c[i], lo, hi) else 0
  {
    if n > 0 { CountSet(c, d, n - 1, i, lo, hi); }
  }

  // Every slot byte is full, empty or deleted.
  lemma {:induction false} CountsAddUp(c: seq<int>, n: nat)
    requires n <= |c| && forall k :: 0 <= k < n ==> SlotByte(c[k])
    ensures Fulls(c, n) + Empties(c, n) + Tombs(c, n) == n
  {
    if n > 0 { CountsAddUp(c, n - 1); }
  }

  lemma {:induction false} CountNone(c: seq<int>, n: nat, lo: int, hi: int)
    requires n <= |c|
    ensures Count(c, n, lo, hi) == 0 <==> forall k :: 0 <= k < n ==> !(lo <= c[k] <= hi)
  {
    if n > 0 { CountNone(c, n - 1, lo, hi); }
  }

  // ---- the growth allowance ----------------------------------------------------------------

  // How many entries a table of 2^k - 1 slots takes before it grows: init subtracts the entries
  // the smaller table held when it was full.
  function Allowance(k: nat): (a: int) {
    if k == 0 then 0 else (Pow2(k) - 1) - (Pow2(k) - 1) / 8 - Allowance(k - 1)
  }

  lemma {:induction false} AllowanceBounds(k: nat)
    ensures k > 0 ==> Pow2(k) <= 2 * Allowance(k) && 4 * Allowance(k) <= 3 * Pow2(k)
  {
    if k > 3 {
      AllowanceBounds(k - 1);
      EightDivides(k);
    } else {
      assert Pow2(1) == 2 && Pow2(2) == 4 && Pow2(3) == 8;
      assert Allowance(1) == 1;
      assert Allowance(2) == 2;
      assert Allowance(3) == 5;
    }
  }

  lemma EightDivides(k: nat)
    requires k >= 3
    ensures Pow2(k) % 8 == 0
  {
    Pow2Add(3, k - 3);
    assert Pow2(3) == 8;
  }

  // A table that is full has strictly fewer entries than its successor allows, so that moving
  // them never fills the new table; and it leaves slots free once there are three.
  lemma AllowanceGrows(k: nat)
    ensures 0 <= Allowance(k) < Allowance(k + 1)
    ensures Allowance(k) <= Pow2(k) - 1
    ensures k >= 2 ==> Allowance(k) < Pow2(k) - 1
  {
    AllowanceBounds(k);
    AllowanceBounds(k + 1);
    assert Pow2(0) == 1 && Pow2(1) == 2;
    if k >= 3 { EightDivides(k); } else { assert Pow2(2) == 4; }
  }

  lemma CapShape(k: nat, cap: nat)
    requires cap + 1 == Pow2(k)
    ensures (cap < 15 ==> cap <= 7) && (cap >= 15 ==> (cap + 1) % 16 == 0)
  {
    assert Pow2(0) == 1 && Pow2(1) == 2 && Pow2(2) == 4 && Pow2(3) == 8 && Pow2(4) == 16;
    if k > 4 {
      Pow2Add(4, k - 4);
    }
  }

  // What init computes for the next capacity is its allowance less the entries of the full table.
  lemma NextAllowance(k: nat, cap: nat)
    requires cap + 1 == Pow2(k)
    ensures 2 * cap + 2 == Pow2(k + 1)
    ensures 0 <= Allowance(k) < Allowance(k + 1) == (2 * cap + 1) - (2 * cap + 1) / 8 - Allowance(k)
  {
    AllowanceGrows(k);
  }

  lemma {:induction false} MoreFulls(c: seq<int>, i: nat, n: nat)
    requires i <= n <= |c|
    ensures Fulls(c, i) + (if i < n && 0 <= c[i] < 128 then 1 else 0) <= Fulls(c, n)
    ensures i < n ==> Fulls(c, i + 1) == Fulls(c, i) + if 0 <= c[i] < 128 then 1 else 0
  {
    if i + 1 < n { MoreFulls(c, i, n - 1); }
  }

  // The slots above the allowance do not get fewer when a table grows.
  lemma SlackGrows(k: nat)
    ensures Pow2(k) - 1 - Allowance(k) <= Pow2(k + 1) - 1 - Allowance(k + 1)
  {
    AllowanceBounds(k);
    AllowanceBounds(k + 1);
    assert Pow2(0) == 1 && Pow2(1) == 2;
  }
}
