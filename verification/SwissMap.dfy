/** cmake/swissmap/swissmap.h: the hash map itself. The methods work on the control bytes and the
    slots in place and are proved against a map from keys to values. */
module SwissHashMap {
  import opened Bits
  import opened Options
  import opened SwissTable

  // The two hash functions: h1 also depends on where the control bytes were allocated, so it is a
  // different function after every reallocation (epoch).
  datatype Hasher<!K> = Hasher(h1: (nat, K) -> nat, h2: K -> nat)

  function Home<K>(h: Hasher<K>, epoch: nat, cap: nat, key: K): (p: nat)
    ensures p <= cap
  {
    BitAnd(h.h1(epoch, key), cap)
  }

  // H2: the byte a full slot's control byte holds
  function Tag<K>(h: Hasher<K>, key: K): (b: int)
    ensures 0 <= b < 128
  {
    BitAnd(h.h2(key), 0x7F)
  }

  // The masks take the low bits of the two hashes.
  lemma HashBits<K>(h: Hasher<K>, epoch: nat, log: nat, key: K)
    ensures Home(h, epoch, Pow2(log) - 1, key) == h.h1(epoch, key) % Pow2(log)
    ensures Tag(h, key) == h.h2(key) % 128
  {
    MaskIsMod(h.h1(epoch, key), log);
    MaskIsMod(h.h2(key), 7);
    assert Pow2(7) == 128;
  }

  // place says where each key lives: full bytes and live slots agree with it, and every key can
  // be reached by its probe.
  ghost predicate Holds<K, V>(c: seq<int>, s: seq<Slot<K, V>>, cap: nat, place: map<K, nat>,
                                  h: Hasher<K>, epoch: nat)
  {
    && |c| == cap + 16 && |s| == cap
    && (forall i :: 0 <= i < cap ==> (c[i] >= 0 <==> s[i].Live?))
    && (forall i :: 0 <= i < cap && s[i].Live? ==>
          c[i] == Tag(h, s[i].key) && s[i].key in place && place[s[i].key] == i)
    && (forall k :: k in place ==> place[k] < cap && s[place[k]].Live? && s[place[k]].key == k)
    && (forall k :: k in place ==> Reached(c, cap, Home(h, epoch, cap, k), place[k]))
  }

  // The map from keys to the values in their slots
  ghost function Entries<K, V>(s: seq<Slot<K, V>>, place: map<K, nat>): map<K, V> {
    map k | k in place && place[k] < |s| && s[place[k]].Live? :: s[place[k]].value
  }

  lemma AddKeepsHolds<K, V>(c: seq<int>, s: seq<Slot<K, V>>, cap: nat, place: map<K, nat>,
                                h: Hasher<K>, epoch: nat, i: nat, key: K, value: V)
    requires CtrlOk(c, cap) && Holds(c, s, cap, place, h, epoch) && i < cap && c[i] < 0 && key !in place
    requires Reached(c, cap, Home(h, epoch, cap, key), i)
    ensures Holds(Set(c, cap, i, Tag(h, key)), s[i := Live(key, value)], cap, place[key := i], h, epoch)
    ensures Entries(s[i := Live(key, value)], place[key := i]) == Entries(s, place)[key := value]
  {
    hide CtrlOk, Reached;
    var b := Tag(h, key);
    SetKeepsCtrl(c, cap, i, b);
    hide Set;
    forall k | k in place[key := i]
      ensures Reached(Set(c, cap, i, b), cap, Home(h, epoch, cap, k), place[key := i][k])
    {
      SetKeepsReached(c, cap, i, b, Home(h, epoch, cap, k), place[key := i][k]);
    }
  }

  lemma RemoveKeepsHolds<K, V>(c: seq<int>, s: seq<Slot<K, V>>, cap: nat, place: map<K, nat>,
                                   h: Hasher<K>, epoch: nat, key: K)
    requires CtrlOk(c, cap) && Holds(c, s, cap, place, h, epoch) && key in place
    ensures Holds(Set(c, cap, place[key], DELETED), s[place[key] := Raw], cap, place - {key}, h, epoch)
    ensures Entries(s[place[key] := Raw], place - {key}) == Entries(s, place) - {key}
  {
    hide CtrlOk, Reached;
    var i := place[key];
    SetKeepsCtrl(c, cap, i, DELETED);
    hide Set;
    forall k | k in place
      ensures Reached(Set(c, cap, i, DELETED), cap, Home(h, epoch, cap, k), place[k])
    {
      SetKeepsReached(c, cap, i, DELETED, Home(h, epoch, cap, k), place[k]);
    }
  }

  lemma OverwriteKeepsHolds<K, V>(c: seq<int>, s: seq<Slot<K, V>>, cap: nat, place: map<K, nat>,
                                  h: Hasher<K>, epoch: nat, key: K, value: V)
    requires Holds(c, s, cap, place, h, epoch) && key in place
    ensures place[key] < |s| && s[place[key]].Live? && s[place[key]].key == key
    ensures Holds(c, s[place[key] := Live(key, value)], cap, place, h, epoch)
    ensures Entries(s[place[key] := Live(key, value)], place) == Entries(s, place)[key := value]
  {
    hide CtrlOk, Reached;
  }

  // The part of the map that lives in the first i slots
  ghost function PartOf<K, V>(s: seq<Slot<K, V>>, place: map<K, nat>, i: nat): map<K, V> {
    map k | k in place && place[k] < i && place[k] < |s| && s[place[k]].Live? :: s[place[k]].value
  }

  lemma NextPart<K, V>(c: seq<int>, s: seq<Slot<K, V>>, cap: nat, place: map<K, nat>,
                       h: Hasher<K>, epoch: nat, i: nat)
    requires Holds(c, s, cap, place, h, epoch) && i < cap
    ensures c[i] >= 0 ==> c[i] < 128 && s[i].Live? && s[i].key !in PartOf(s, place, i)
    ensures c[i] >= 0 ==> PartOf(s, place, i + 1) == PartOf(s, place, i)[s[i].key := s[i].value]
    ensures c[i] < 0 ==> PartOf(s, place, i + 1) == PartOf(s, place, i)
  {
    hide Reached;
  }

  lemma FirstAndLastPart<K, V>(c: seq<int>, s: seq<Slot<K, V>>, cap: nat, place: map<K, nat>,
                               h: Hasher<K>, epoch: nat)
    requires Holds(c, s, cap, place, h, epoch)
    ensures PartOf(s, place, 0) == map[] && PartOf(s, place, cap) == Entries(s, place)
  {
    hide Reached;
  }

  lemma {:induction false} PartSize<K, V>(c: seq<int>, s: seq<Slot<K, V>>, cap: nat, place: map<K, nat>,
                                         h: Hasher<K>, epoch: nat, i: nat)
    requires Holds(c, s, cap, place, h, epoch) && i <= cap
    ensures |PartOf(s, place, i)| == Fulls(c, i)
  {
    hide Holds, PartOf;
    FirstAndLastPart(c, s, cap, place, h, epoch);
    if i > 0 {
      NextPart(c, s, cap, place, h, epoch, i - 1);
      PartSize(c, s, cap, place, h, epoch, i - 1);
    }
  }

  lemma EntriesKeys<K, V>(c: seq<int>, s: seq<Slot<K, V>>, cap: nat, place: map<K, nat>,
                          h: Hasher<K>, epoch: nat)
    requires Holds(c, s, cap, place, h, epoch)
    ensures Entries(s, place).Keys == place.Keys
    ensures place == map[] ==> Entries(s, place) == map[]
  {
    hide Reached;
  }

  lemma FreshTable<K, V>(c: seq<int>, s: seq<Slot<K, V>>, cap: nat, h: Hasher<K>, epoch: nat)
    requires |c| == cap + 16 && |s| == cap && (cap < 15 ==> cap <= 7) && (cap >= 15 ==> (cap + 1) % 16 == 0)
    requires forall p :: 0 <= p < cap + 16 ==> c[p] == if p == cap then SENTINEL else EMPTY
    requires forall i :: 0 <= i < cap ==> s[i] == Raw
    ensures CtrlOk(c, cap) && Holds(c, s, cap, map[], h, epoch)
    ensures Fulls(c, cap) == Tombs(c, cap) == 0
  {
    CountNone(c, cap, 0, 127);
    CountNone(c, cap, DELETED, DELETED);
    hide Count;
  }

  // What one set byte does to the three counts
  lemma SetCounts(c: seq<int>, cap: nat, i: nat, b: int)
    requires CtrlOk(c, cap) && i < cap && SlotByte(b)
    ensures var d := Set(c, cap, i, b);
      && Fulls(d, cap) == Fulls(c, cap) + In(b, 0, 127) - In(c[i], 0, 127)
      && Empties(d, cap) == Empties(c, cap) + In(b, EMPTY, EMPTY) - In(c[i], EMPTY, EMPTY)
      && Tombs(d, cap) == Tombs(c, cap) + In(b, DELETED, DELETED) - In(c[i], DELETED, DELETED)
  {
    SetKeepsCtrl(c, cap, i, b);
    hide CtrlOk, Set;
    var d := Set(c, cap, i, b);
    CountSet(c, d, cap, i, 0, 127);
    CountSet(c, d, cap, i, EMPTY, EMPTY);
    CountSet(c, d, cap, i, DELETED, DELETED);
  }

  class SwissMap<K(==), V> {
    const hasher: Hasher<K>
    var ctrl: array<int>
    var slots: array<Slot<K, V>>
    var cap: nat
    var num: nat
    var growthInfo: nat
    var epoch: nat
    ghost var log: nat
    ghost var place: map<K, nat>

    ghost predicate Shaped()
      reads this
    {
      cap + 1 == Pow2(log) && ctrl.Length == cap + 16 && slots.Length == cap
    }

    ghost predicate Valid()
      reads this, ctrl, slots
    {
      && Shaped()
      && CtrlOk(ctrl[..], cap)
      && Holds(ctrl[..], slots[..], cap, place, hasher, epoch)
      && num == Fulls(ctrl[..], cap) && growthInfo + num == Allowance(log)
    }

    // The map the table stands for
    ghost function Contents(): map<K, V>
      reads this, slots
    {
      Entries(slots[..], place)
    }

    // The probe for key comes to an end.
    ghost predicate Stops(key: K)
      requires Shaped()
      reads this, ctrl
    {
      key in place || cap < 15 || Empties(ctrl[..], cap) > 0
    }

    // getSlotIndex
    function SlotIndex(index: nat, off: nat): (i: nat)
      reads this
      ensures i <= cap
    {
      BitAnd(index + off, cap)
    }

    lemma SlotIndexIs(index: nat, off: nat)
      requires Shaped()
      ensures SlotIndex(index, off) == Wrap(index + off, cap)
    {
      MaskIsMod(index + off, log);
    }

    // The lowest set bit of the mask of one comparison; 16 for an empty mask
    method FirstMatch(index: nat, lo: int, hi: int) returns (off: nat)
      requires index + 16 <= ctrl.Length
      ensures off <= 16 && (off < 16 ==> lo <= ctrl[index + off] <= hi)
      ensures forall p :: index <= p < index + off ==> !(lo <= ctrl[p] <= hi)
    {
      off := 0;
      while off < WIDTH && !(lo <= ctrl[index + off] <= hi)
        invariant off <= 16 && forall p :: index <= p < index + off ==> !(lo <= ctrl[p] <= hi)
      {
        off := off + 1;
      }
    }

    // The slots of one group whose byte equals h2, lowest offset first
    method MatchGroup(key: K, index: nat) returns (found: bool, slot: nat, off: nat)
      requires Valid() && index <= cap
      ensures found ==> key in place && slot == place[key]
      ensures found ==> off < 16 && slot == Wrap(index + off, cap)
      ensures !found && key in place ==>
        forall p :: index <= p < index + 16 && p <= 2 * cap ==> place[key] != Wrap(p, cap)
    {
      hide CtrlOk, BitAnd, Reached, Wrap;
      off := 0;
      while off < WIDTH
        invariant off <= 16
        invariant key in place ==>
          forall p :: index <= p < index + off && p <= 2 * cap ==> place[key] != Wrap(p, cap)
      {
        SlotIndexIs(index, off);
        ByteAt(ctrl[..], cap, index + off);
        if ctrl[index + off] == Tag(hasher, key) {
          slot := SlotIndex(index, off);
          if slots[slot].key == key {
            return true, slot, off;
          }
        }
        off := off + 1;
      }
      return false, 0, off;
    }

    // Group g is where the probe for key ends: it shows the key or, if there is none, an Empty byte.
    ghost predicate EndsAt(key: K, g: nat)
      requires Shaped()
      reads this, ctrl
    {
      var home := Home(hasher, epoch, cap, key);
      if key in place then place[key] <= cap && g == Dist(home, place[key], cap) / WIDTH
      else !NoEmpty(ctrl[..], Start(home, g, cap))
    }

    lemma ProbeEnds(key: K) returns (g: nat)
      requires Valid() && Stops(key)
      ensures g < Groups(cap) && EndsAt(key, g)
    {
      hide Start, Count;
      var home := Home(hasher, epoch, cap, key);
      CapShape(log, cap);
      if key in place {
        g := Dist(home, place[key], cap) / WIDTH;
        GroupOf(home, place[key], cap);
      } else if cap < 15 {
        g := 0;
        assert ctrl[..][Start(home, 0, cap) + 15] == EMPTY;
      } else {
        CountNone(ctrl[..], cap, EMPTY, EMPTY);
        var e :| 0 <= e < cap && ctrl[..][e] == EMPTY;
        g := Dist(home, e, cap) / WIDTH;
        GroupOf(home, e, cap);
        ByteAt(ctrl[..], cap, Start(home, g, cap) + Dist(home, e, cap) % WIDTH);
      }
    }

    // A group without the key is not the one that holds it, so no Empty byte can be in it.
    lemma KeyIsLater(key: K, t: nat)
      requires Valid() && key in place
      requires var home := Home(hasher, epoch, cap, key);
        && t <= Dist(home, place[key], cap) / WIDTH
        && forall p :: Start(home, t, cap) <= p < Start(home, t, cap) + 16 && p <= 2 * cap
                       ==> place[key] != Wrap(p, cap)
      ensures var home := Home(hasher, epoch, cap, key);
        t < Dist(home, place[key], cap) / WIDTH && NoEmpty(ctrl[..], Start(home, t, cap))
    {
      hide Start, Wrap, Home;
      CapShape(log, cap);
      GroupOf(Home(hasher, epoch, cap, key), place[key], cap);
    }

    // The Empty byte a probe ends with belongs to a slot that the key may use.
    lemma EmptyIsReached(key: K, t: nat, off: nat)
      requires Valid() && cap >= 15 && t < Groups(cap) && off < WIDTH
      requires var home := Home(hasher, epoch, cap, key);
        && ctrl[Start(home, t, cap) + off] == EMPTY
        && forall u: nat :: u < t ==> NoEmpty(ctrl[..], Start(home, u, cap))
      ensures var home := Home(hasher, epoch, cap, key);
        var i := Wrap(Start(home, t, cap) + off, cap);
        i < cap && ctrl[i] == EMPTY && Reached(ctrl[..], cap, home, i)
    {
      hide Start, Wrap, Home;
      CapShape(log, cap);
      var home := Home(hasher, epoch, cap, key);
      ByteAt(ctrl[..], cap, Start(home, t, cap) + off);
      DistOf(home, t, off, cap);
    }

    // A key that group t shows is in group t of its probe.
    lemma ShownHere(key: K, t: nat, g: nat, off: nat)
      requires Valid() && key in place && t <= g < Groups(cap) && EndsAt(key, g) && off < WIDTH
      requires place[key] == Wrap(Start(Home(hasher, epoch, cap, key), t, cap) + off, cap)
      ensures EndsAt(key, t)
    {
      hide Start, Wrap, Home, Holds, CtrlOk;
      CapShape(log, cap);
      if cap >= 15 { DistOf(Home(hasher, epoch, cap, key), t, off, cap); }
    }

    lemma NotBefore(key: K, t: nat, g: nat)
      requires Valid() && key in place && t <= g && EndsAt(key, g)
      ensures place[key] <= cap && t <= Dist(Home(hasher, epoch, cap, key), place[key], cap) / WIDTH
    {
      hide Start, Home, Holds, CtrlOk, Count;
    }

    lemma EndsHere(key: K, t: nat, off: nat)
      requires Valid() && key !in place && off < WIDTH
      requires ctrl[Start(Home(hasher, epoch, cap, key), t, cap) + off] == EMPTY
      ensures EndsAt(key, t)
    {
      hide Start, Home, Holds, CtrlOk, Count;
    }

    // A group that shows neither the key nor an Empty byte is not the last.
    lemma NotYet(key: K, t: nat, g: nat)
      requires Valid() && t <= g && EndsAt(key, g)
      requires var home := Home(hasher, epoch, cap, key);
        && NoEmpty(ctrl[..], Start(home, t, cap))
        && (key in place ==> place[key] <= cap && t < Dist(home, place[key], cap) / WIDTH)
      ensures t < g
    {
      hide Start, Home, Holds, CtrlOk, Count;
    }

    // findIndex: whether the key is there, and otherwise the first Empty slot of its probe. The
    // probe looks at exactly the groups up to the first in which it can end, at most Groups(cap).
    method FindIndex(key: K) returns (found: bool, retIndex: nat, ghost groups: nat)
      requires Valid() && Stops(key)
      ensures found <==> key in place
      ensures found ==> retIndex == place[key]
      ensures !found ==> retIndex <= cap
      ensures !found && cap >= 15 ==>
        retIndex < cap && ctrl[retIndex] == EMPTY && Reached(ctrl[..], cap, Home(hasher, epoch, cap, key), retIndex)
      ensures 0 < groups <= Groups(cap) && EndsAt(key, groups - 1)
      ensures !found ==>
        forall u: nat :: u < groups - 1 ==> NoEmpty(ctrl[..], Start(Home(hasher, epoch, cap, key), u, cap))
    {
      hide Holds, CtrlOk, Count, Start, Home, BitAnd, Groups, Reached, EndsAt, Wrap;
      var index := Home(hasher, epoch, cap, key);
      ghost var home := index;
      ghost var g := ProbeEnds(key);
      ghost var t: nat := 0;
      FirstStart(home, cap);
      while true
        invariant t <= g && index == Start(home, t, cap)
        invariant forall u: nat :: u < t ==> NoEmpty(ctrl[..], Start(home, u, cap))
        decreases g - t
      {
        var slot: nat, off: nat;
        found, slot, off := MatchGroup(key, index);
        if found {
          ShownHere(key, t, g, off);
          return true, slot, t + 1;
        }
        if key in place {
          NotBefore(key, t, g);
          KeyIsLater(key, t);
        }
        off := FirstMatch(index, EMPTY, EMPTY);
        if off < WIDTH {
          SlotIndexIs(index, off);
          if cap >= 15 { EmptyIsReached(key, t, off); }
          EndsHere(key, t, off);
          return false, SlotIndex(index, off), t + 1;
        }
        NotYet(key, t, g);
        NextStart(home, t, cap);
        SlotIndexIs(index, WIDTH);
        index := SlotIndex(index, WIDTH);
        t := t + 1;
      }
    }

    // With neither the key nor an Empty byte in a large table no group ends the probe: it runs on
    // for ever.
    lemma ProbeRunsOn(key: K, t: nat)
      requires Valid() && !Stops(key)
      ensures NoEmpty(ctrl[..], Start(Home(hasher, epoch, cap, key), t, cap))
    {
      hide Wrap, Count, Home;
      CountNone(ctrl[..], cap, EMPTY, EMPTY);
      var start := Start(Home(hasher, epoch, cap, key), t, cap);
      hide Start;
      forall p | start <= p < start + 16
        ensures ctrl[..][p] != EMPTY
      {
        ByteAt(ctrl[..], cap, p);
      }
    }

    // setCtrl, on the array
    method SetCtrl(index: nat, h: int)
      requires ctrl.Length == cap + 16 && index < cap
      modifies ctrl
      ensures ctrl[..] == Set(old(ctrl[..]), cap, index, h)
    {
      ctrl[index] := h;
      if index < WIDTH - 1 {
        ctrl[index + cap + 1] := h;
      }
    }

    // Put a new key into a slot that is free for it.
    method Store(key: K, junk: V, index: nat)
      requires Valid() && key !in place && growthInfo > 0 && index < cap
      requires ctrl[index] == EMPTY || ctrl[index] == DELETED
      requires Reached(ctrl[..], cap, Home(hasher, epoch, cap, key), index)
      modifies this, ctrl, slots
      ensures Valid() && ctrl == old(ctrl) && slots == old(slots) && log == old(log)
      ensures place == old(place)[key := index] && Contents() == old(Contents())[key := junk]
      ensures growthInfo == old(growthInfo) - 1
      ensures Empties(ctrl[..], cap) == old(Empties(ctrl[..], cap)) - In(old(ctrl[index]), EMPTY, EMPTY)
      ensures Tombs(ctrl[..], cap) == old(Tombs(ctrl[..], cap)) - In(old(ctrl[index]), DELETED, DELETED)
    {
      hide CtrlOk, Set, Reached, Count, Allowance, Pow2, Tag, Holds, Entries;
      ghost var c, s := ctrl[..], slots[..];
      AddKeepsHolds(c, s, cap, place, hasher, epoch, index, key, junk);
      SetCounts(c, cap, index, Tag(hasher, key));
      SetKeepsCtrl(c, cap, index, Tag(hasher, key));
      SetCtrl(index, Tag(hasher, key));
      slots[index] := Live(key, junk);
      num := num + 1;
      growthInfo := growthInfo - 1;
      place := place[key := index];
      assert slots[..] == s[index := Live(key, junk)];
    }

    // The second look of find: from the slot that findIndex returned the first byte that is Empty
    // or Deleted. There always is one, and as long as the map may grow it belongs to a real slot.
    lemma FreeSlot(key: K, retIndex: nat, off: nat)
      requires Valid() && key !in place && retIndex <= cap && off <= WIDTH
      requires cap >= 15 ==>
        retIndex < cap && ctrl[retIndex] == EMPTY && Reached(ctrl[..], cap, Home(hasher, epoch, cap, key), retIndex)
      requires off < WIDTH ==> EMPTY <= ctrl[retIndex + off] <= DELETED
      requires forall p :: retIndex <= p < retIndex + off ==> !(EMPTY <= ctrl[p] <= DELETED)
      ensures off < WIDTH
      ensures var i := Wrap(retIndex + off, cap);
        growthInfo > 0 ==>
          && i < cap && (ctrl[i] == EMPTY || ctrl[i] == DELETED) && (cap >= 15 ==> ctrl[i] == EMPTY)
          && Reached(ctrl[..], cap, Home(hasher, epoch, cap, key), i)
    {
      hide Count, Wrap, Home;
      CapShape(log, cap);
      if cap >= 15 {
        assert off == 0;
        SmallWrap(retIndex, cap);
      } else {
        assert ctrl[retIndex + 15] == EMPTY;
        ByteAt(ctrl[..], cap, retIndex + off);
        if growthInfo > 0 { SomeSlotFree(retIndex, off); }
      }
    }

    lemma SmallWrap(p: nat, cap: nat)
      requires p <= cap
      ensures Wrap(p, cap) == p
    {
      DivModUnique(p, cap + 1, 0, p);
    }

    // If the search in a small table ran past the clones, no slot would be free.
    lemma SomeSlotFree(retIndex: nat, off: nat)
      requires Valid() && cap < 15 && growthInfo > 0 && retIndex <= cap && off < WIDTH
      requires forall p :: retIndex <= p < retIndex + off ==> !(EMPTY <= ctrl[p] <= DELETED)
      ensures retIndex + off <= 2 * cap
    {
      hide Holds, Allowance;
      AllowanceGrows(log);
      CountsAddUp(ctrl[..], cap);
      CountNone(ctrl[..], cap, EMPTY, EMPTY);
      CountNone(ctrl[..], cap, DELETED, DELETED);
      hide Count;
      if retIndex + off > 2 * cap {
        forall i | 0 <= i < cap
          ensures ctrl[..][i] != EMPTY && ctrl[..][i] != DELETED
        {
          assert ctrl[i + cap + 1] == ctrl[i];
        }
      }
    }

    // find(key, isAdd). junk is what the memory of a new value holds before the caller writes it.
    method Find(key: K, isAdd: bool, junk: V) returns (found: bool, index: nat)
      requires Valid() && Stops(key)
      modifies this, ctrl, slots
      ensures Valid() && (ctrl == old(ctrl) || fresh(ctrl)) && (slots == old(slots) || fresh(slots))
      ensures found <==> old(key in place) || isAdd
      ensures found ==> key in place && index == place[key]
      ensures old(key in place) || !isAdd ==> Unchanged() && log == old(log)
      ensures !old(key in place) && isAdd ==> Contents() == old(Contents())[key := junk]
      ensures !old(key in place) && isAdd ==> place.Keys == old(place).Keys + {key}
      ensures !old(key in place) && isAdd && old(growthInfo) > 0 ==> Filled(cap >= 15) && log == old(log)
      ensures !old(key in place) && isAdd && old(growthInfo) == 0 ==> log == old(log) + 1 && Tombs(ctrl[..], cap) == 0
      ensures Tombs(ctrl[..], cap) <= old(Tombs(ctrl[..], cap))
      decreases if growthInfo == 0 then 2 else 0
    {
      hide Holds, CtrlOk, Count, Home, Reached, Groups, Entries, Wrap, BitAnd, Allowance, Pow2;
      ghost var groups: nat;
      found, index, groups := FindIndex(key);
      if found || !isAdd {
        return;
      }
      var off := FirstMatch(index, EMPTY, DELETED);
      FreeSlot(key, index, off);
      if off < WIDTH {
        if growthInfo > 0 {
          SlotIndexIs(index, off);
          index := SlotIndex(index, off);
          Store(key, junk, index);
          return true, index;
        }
      }
      Rehash(2 * cap + 1, junk);
      RoomAfterRehash(key);
      found, index := Find(key, isAdd, junk);
    }

    // A table without tombstones that may still grow has an Empty byte.
    lemma RoomAfterRehash(key: K)
      requires Valid() && Tombs(ctrl[..], cap) == 0 && growthInfo > 0
      ensures Stops(key) && Empties(ctrl[..], cap) > 0
    {
      hide Holds, Count, Allowance;
      AllowanceGrows(log);
      CountsAddUp(ctrl[..], cap);
    }

    // init: new arrays, all bytes Empty; num still counts the entries of the old table.
    method Init(n: nat, ghost k: nat)
      requires n + 1 == Pow2(k) && num <= n - n / 8
      modifies this
      ensures fresh(ctrl) && fresh(slots) && cap == n && log == k && Shaped()
      ensures num == old(num) && growthInfo == n - n / 8 - num && epoch == old(epoch) + 1
      ensures place == map[] && CtrlOk(ctrl[..], cap) && Holds(ctrl[..], slots[..], cap, map[], hasher, epoch)
      ensures Fulls(ctrl[..], cap) == Tombs(ctrl[..], cap) == 0
    {
      hide Holds, CtrlOk, Count, Pow2;
      CapShape(k, n);
      ctrl := new int[n + 16](_ => EMPTY);
      ctrl[n] := SENTINEL;
      slots := new Slot[n](_ => Raw);
      cap, epoch := n, epoch + 1;
      growthInfo := n - n / 8 - num;
      log, place := k, map[];
      FreshTable(ctrl[..], slots[..], n, hasher, epoch);
    }

    // rehash: the map stays the same, no tombstone is left, and moving the entries never makes
    // the new table grow.
    method Rehash(n: nat, junk: V)
      requires Valid() && growthInfo == 0 && n == 2 * cap + 1
      modifies this
      ensures Valid() && fresh(ctrl) && fresh(slots) && log == old(log) + 1
      ensures Contents() == old(Contents()) && place.Keys == old(place).Keys
      ensures Tombs(ctrl[..], cap) == 0 && growthInfo > 0
      decreases 1
    {
      hide Holds, CtrlOk, Count, Entries, PartOf, Allowance, Pow2;
      ghost var c0, s0, place0, epoch0 := ctrl[..], slots[..], place, epoch;
      var oldCtrl, oldSlots, oldCap := ctrl, slots, cap;
      NextAllowance(log, cap);
      FirstAndLastPart(c0, s0, oldCap, place0, hasher, epoch0);
      EntriesKeys(c0, s0, oldCap, place0, hasher, epoch0);
      Init(n, log + 1);
      num := 0;
      EntriesKeys(ctrl[..], slots[..], cap, place, hasher, epoch);
      for i := 0 to oldCap
        invariant Valid() && fresh(ctrl) && fresh(slots) && log == old(log) + 1
        invariant Contents() == PartOf(s0, place0, i) && place.Keys == PartOf(s0, place0, i).Keys
        invariant num == Fulls(c0, i) && Tombs(ctrl[..], cap) == 0
      {
        NextPart(c0, s0, oldCap, place0, hasher, epoch0, i);
        MoreFulls(c0, i, oldCap);
        if oldCtrl[i] >= 0 {
          var slot := oldSlots[i];
          RoomAfterRehash(slot.key);
          var found, x := Find(slot.key, true, junk);
          WriteValue(slot.key, slot.value, x);
        }
      }
      MoreFulls(c0, oldCap, oldCap);
    }

    // The caller of find constructs the value in the slot it was given.
    method WriteValue(key: K, value: V, index: nat)
      requires Valid() && key in place && index == place[key]
      modifies slots
      ensures Valid() && Contents() == old(Contents())[key := value]
    {
      hide Holds, CtrlOk, Count, Entries;
      OverwriteKeepsHolds(ctrl[..], slots[..], cap, place, hasher, epoch, key, value);
      ghost var s := slots[..];
      slots[index] := Live(key, value);
      assert slots[..] == s[index := Live(key, value)];
    }

    // Nothing about the map has changed.
    twostate predicate Unchanged()
      reads this, ctrl, slots
    {
      && unchanged(this`ctrl, this`slots, this`cap, this`num, this`growthInfo, this`place, this`epoch)
      && ctrl[..] == old(ctrl[..]) && slots[..] == old(slots[..])
    }

    // One entry more, without growing; in a large table it used up an Empty byte.
    twostate predicate Filled(large: bool)
      reads this, ctrl
      requires Shaped() && old(Shaped())
    {
      && ctrl == old(ctrl) && slots == old(slots) && cap == old(cap) && growthInfo == old(growthInfo) - 1
      && (large ==> Empties(ctrl[..], cap) == old(Empties(ctrl[..], cap)) - 1
                    && Tombs(ctrl[..], cap) == old(Tombs(ctrl[..], cap)))
    }

    // ---- the interface -----------------------------------------------------------------------

    constructor (h: Hasher<K>)
      ensures hasher == h && Valid() && fresh(ctrl) && fresh(slots)
      ensures Books() == Ledger(map[], 0, 0)
      ensures Contents() == map[] && Tombs(ctrl[..], cap) == 0
    {
      hasher := h;
      ctrl := new int[0];
      slots := new Slot[0];
      cap, num, growthInfo, epoch := 0, 0, 0, 0;
      new;
      Init(0, 0);
      EntriesKeys(ctrl[..], slots[..], cap, place, hasher, epoch);
    }

    method Insert(key: K, v: V)
      requires Valid() && Stops(key)
      modifies this, ctrl, slots
      ensures Valid() && (ctrl == old(ctrl) || fresh(ctrl)) && (slots == old(slots) || fresh(slots))
      ensures Contents() == old(Contents())[key := v]
      ensures place.Keys == old(place).Keys + {key}
      ensures old(key in place) ==> log == old(log) && cap == old(cap) && ctrl == old(ctrl) && ctrl[..] == old(ctrl[..])
      ensures !old(key in place) && old(growthInfo) > 0 ==> Filled(cap >= 15) && log == old(log)
      ensures !old(key in place) && old(growthInfo) == 0 ==> log == old(log) + 1 && Tombs(ctrl[..], cap) == 0
    {
      hide Holds, CtrlOk, Count, Entries;
      var found, x := Find(key, true, v);
      WriteValue(key, v, x);
    }

    // operator[]
    method Lookup(key: K) returns (r: Option<V>)
      requires Valid() && Stops(key)
      ensures r == if key in Contents() then Some(Contents()[key]) else None
    {
      hide CtrlOk, Count, Reached;
      EntriesKeys(ctrl[..], slots[..], cap, place, hasher, epoch);
      ghost var groups: nat;
      var found, index: nat;
      found, index, groups := FindIndex(key);
      if found {
        assert place[key] == index && slots[index].Live?;
        return Some(slots[index].value);
      }
      return None;
    }

    method Erase(key: K) returns (erased: bool)
      requires Valid() && Stops(key)
      modifies this, ctrl, slots
      ensures Valid() && ctrl == old(ctrl) && slots == old(slots) && cap == old(cap) && log == old(log)
      ensures erased <==> key in old(Contents())
      ensures Contents() == old(Contents()) - {key} && place == old(place) - {key}
      ensures growthInfo == old(growthInfo) + if erased then 1 else 0
      ensures Empties(ctrl[..], cap) == old(Empties(ctrl[..], cap))
      ensures Tombs(ctrl[..], cap) == old(Tombs(ctrl[..], cap)) + if erased then 1 else 0
    {
      hide CtrlOk, Set, Reached, Count, Allowance, Pow2, Holds, Entries;
      ghost var c, s := ctrl[..], slots[..];
      EntriesKeys(c, s, cap, place, hasher, epoch);
      ghost var groups: nat;
      var index: nat;
      erased, index, groups := FindIndex(key);
      if !erased {
        assert place - {key} == place && Contents() - {key} == Contents();
        return;
      }
      RemoveKeepsHolds(c, s, cap, place, hasher, epoch, key);
      FullByte(c, s, cap, place, hasher, epoch, key);
      SetCounts(c, cap, index, DELETED);
      SetKeepsCtrl(c, cap, index, DELETED);
      SetCtrl(index, DELETED);
      slots[index] := Raw;
      num := num - 1;
      growthInfo := growthInfo + 1;
      place := place - {key};
      assert slots[..] == s[index := Raw];
    }

    // Erasing gives the growth back but not the Empty byte, so inserting and erasing one key often
    // enough uses up the Empty bytes of a large table: then no probe for an absent key stops.
    method Churn(key: K, v: V, n: nat)
      requires Valid() && cap >= 15 && key !in place && growthInfo > 0
      requires n == Empties(ctrl[..], cap)
      modifies this, ctrl, slots
      ensures Valid() && cap == old(cap) && Contents() == old(Contents()) && growthInfo == old(growthInfo)
      ensures !Stops(key)
    {
      hide CtrlOk, Count, Holds, Entries, Allowance;
      EntriesKeys(ctrl[..], slots[..], cap, place, hasher, epoch);
      for i := 0 to n
        invariant Valid() && cap == old(cap) && Contents() == old(Contents()) && growthInfo == old(growthInfo)
        invariant ctrl == old(ctrl) && slots == old(slots) && key !in place && key !in Contents()
        invariant Empties(ctrl[..], cap) == n - i
      {
        Insert(key, v);
        var erased := Erase(key);
        assert old(Contents())[key := v] - {key} == old(Contents());
      }
    }

    // As long as there are fewer tombstones than slots above the allowance every probe stops.
    lemma FewTombsStop(key: K)
      requires Valid() && Tombs(ctrl[..], cap) < cap - Allowance(log)
      ensures Stops(key)
    {
      hide Holds, Count, Allowance;
      CountsAddUp(ctrl[..], cap);
    }

    // Without tombstones every probe stops, whatever the capacity.
    lemma NoTombsStop(key: K)
      requires Valid() && Tombs(ctrl[..], cap) == 0
      ensures Stops(key)
    {
      hide Holds, Count, Allowance;
      AllowanceGrows(log);
      if cap >= 15 {
        assert Pow2(0) == 1 && Pow2(1) == 2;
        FewTombsStop(key);
      }
    }

    // ---- whole runs ----------------------------------------------------------------------------

    lemma NumIsSize()
      requires Valid()
      ensures num == |Contents()|
    {
      FirstAndLastPart(ctrl[..], slots[..], cap, place, hasher, epoch);
      PartSize(ctrl[..], slots[..], cap, place, hasher, epoch, cap);
    }

    // What the future of the table depends on. The tombstones of a small table do not matter.
    ghost function Books(): Ledger<K, V>
      requires Shaped()
      reads this, ctrl, slots
    {
      Ledger(Contents(), log, if cap >= 15 then Tombs(ctrl[..], cap) else 0)
    }

    // The books say exactly which probes end.
    lemma StopsByBooks(key: K)
      requires Valid()
      ensures Stops(key) <==> !RunsOn(Books(), key)
      ensures growthInfo == 0 <==> |Contents()| == Allowance(log)
      ensures Sound(Books())
    {
      EntriesKeys(ctrl[..], slots[..], cap, place, hasher, epoch);
      NumIsSize();
      CountsAddUp(ctrl[..], cap);
      hide Holds, Count, Allowance, Pow2;
    }

    // One operation, and what it does to the books
    method Apply(op: Operation<K, V>) returns (answer: Option<V>)
      requires Valid() && Stops(op.key)
      modifies this, ctrl, slots
      ensures Valid() && (ctrl == old(ctrl) || fresh(ctrl)) && (slots == old(slots) || fresh(slots))
      ensures Books() == Booked(old(Books()), op)
      ensures answer == if op.Get? && op.key in old(Contents()) then Some(old(Contents())[op.key]) else None
    {
      hide CtrlOk, Count, Holds, Entries, Allowance, Pow2;
      StopsByBooks(op.key);
      EntriesKeys(ctrl[..], slots[..], cap, place, hasher, epoch);
      Pow2Double(log);
      LargeTable(log, cap);
      LargeTable(log + 1, 2 * cap + 1);
      answer := None;
      match op {
        case Put(key, value) => Insert(key, value);
        case Get(key) => answer := Lookup(key);
        case Remove(key) =>
          var erased := Erase(key);
          if !erased { assert Contents() == old(Contents()); }
      }
    }

    // A whole run of operations. It gets as far as the books say, and answers like the map; the
    // operation it stops before, if any, has a probe that never ends.
    method Run(ops: seq<Operation<K, V>>, books: Ledger<K, V>) returns (answers: seq<Option<V>>, done: nat)
      requires Valid() && books == Books()
      modifies this, ctrl, slots
      ensures Valid() && done == Completed(books, ops)
      ensures done < |ops| ==> !Stops(ops[done].key)
      ensures Contents() == MapAfter(ops[..done], old(Contents()))
      ensures answers == AnswersOf(ops[..done], old(Contents()))
    {
      hide CtrlOk, Count, Holds, Entries, Allowance, Pow2, RunsOn, Booked, Completed, MapAfter, AnswersOf;
      NothingDone(ops, books);
      var l := books;
      done, answers := 0, [];
      while done < |ops| && !RunsOn(l, ops[done].key)
        invariant done <= |ops| && Valid() && l == Books()
        invariant (ctrl == old(ctrl) || fresh(ctrl)) && (slots == old(slots) || fresh(slots))
        invariant Completed(books, ops) == done + Completed(l, ops[done..])
        invariant Contents() == MapAfter(ops[..done], books.contents)
        invariant answers == AnswersOf(ops[..done], books.contents)
      {
        StopsByBooks(ops[done].key);
        OneDone(ops, done, books, l);
        var answer := Apply(ops[done]);
        if ops[done].Get? {
          answers := answers + [answer];
        }
        l := Booked(l, ops[done]);
        done := done + 1;
      }
      if done < |ops| { StopsByBooks(ops[done].key); }
      AllDone(ops, done, l);
    }
  }

  datatype Operation<K, V> = Put(key: K, value: V) | Get(key: K) | Remove(key: K)

  function Removals<K, V>(ops: seq<Operation<K, V>>): nat {
    if |ops| == 0 then 0 else (if ops[0].Remove? then 1 else 0) + Removals(ops[1..])
  }

  // One for each Remove
  lemma {:induction false} RemovalsAre<K, V>(ops: seq<Operation<K, V>>, last: Operation<K, V>)
    ensures Removals(ops) == 0 <==> forall i :: 0 <= i < |ops| ==> !ops[i].Remove?
    ensures Removals(ops + [last]) == Removals(ops) + if last.Remove? then 1 else 0
    decreases |ops|
  {
    if |ops| == 0 {
      assert (ops + [last])[1..] == [];
    } else {
      assert (ops + [last])[1..] == ops[1..] + [last];
      RemovalsAre(ops[1..], last);
      assert forall i :: 0 < i < |ops| ==> ops[i] == ops[1..][i - 1];
    }
  }

  function Changed<K(==), V>(m: map<K, V>, op: Operation<K, V>): map<K, V> {
    match op
    case Put(key, value) => m[key := value]
    case Get(_) => m
    case Remove(key) => m - {key}
  }

  function Found<K(==), V>(m: map<K, V>, key: K): (r: Option<V>)
    ensures r.Some? <==> key in m
    ensures key in m ==> r.value == m[key]
  {
    if key in m then Some(m[key]) else None
  }

  function MapAfter<K(==), V>(ops: seq<Operation<K, V>>, m: map<K, V>): map<K, V> {
    if |ops| == 0 then m else Changed(MapAfter(ops[..|ops| - 1], m), ops[|ops| - 1])
  }

  // What the lookups of a run answer, in order
  function AnswersOf<K(==), V>(ops: seq<Operation<K, V>>, m: map<K, V>): seq<Option<V>> {
    if |ops| == 0 then [] else
    var rest, last := ops[..|ops| - 1], ops[|ops| - 1];
    AnswersOf(rest, m) + if last.Get? then [Found(MapAfter(rest, m), last.key)] else []
  }

  // Operation j is the last of ops that puts or removes key.
  ghost predicate LastChange<K, V>(ops: seq<Operation<K, V>>, key: K, j: nat) {
    && j < |ops| && ops[j].key == key && !ops[j].Get?
    && forall t :: j < t < |ops| ==> ops[t].key == key ==> ops[t].Get?
  }

  ghost predicate Untouched<K, V>(ops: seq<Operation<K, V>>, key: K) {
    forall t :: 0 <= t < |ops| ==> ops[t].key == key ==> ops[t].Get?
  }

  // After a run a key is bound to what the last operation that changed it says, and without one to
  // what it was bound to before.
  lemma {:induction false} BoundAfter<K, V>(ops: seq<Operation<K, V>>, m: map<K, V>, key: K)
    ensures var after := MapAfter(ops, m);
      && (forall j: nat :: LastChange(ops, key, j) ==>
            if ops[j].Put? then key in after && after[key] == ops[j].value else key !in after)
      && (Untouched(ops, key) ==> if key in m then key in after && after[key] == m[key] else key !in after)
    ensures Untouched(ops, key) || exists j: nat :: LastChange(ops, key, j)
    decreases |ops|
  {
    if |ops| > 0 {
      var n := |ops| - 1;
      BoundAfter(ops[..n], m, key);
      if ops[n].key == key && !ops[n].Get? {
        assert LastChange(ops, key, n);
      } else {
        forall j: nat | j < n
          ensures LastChange(ops, key, j) <==> LastChange(ops[..n], key, j)
        {}
      }
    }
  }

  function Lookups<K, V>(ops: seq<Operation<K, V>>): nat {
    if |ops| == 0 then 0 else Lookups(ops[..|ops| - 1]) + if ops[|ops| - 1].Get? then 1 else 0
  }

  lemma {:induction false} AnswerIndex<K, V>(ops: seq<Operation<K, V>>, m: map<K, V>, i: nat)
    requires i < |ops| && ops[i].Get?
    ensures |AnswersOf(ops, m)| == Lookups(ops) > Lookups(ops[..i])
    ensures AnswersOf(ops, m)[Lookups(ops[..i])] == Found(MapAfter(ops[..i], m), ops[i].key)
    decreases |ops|
  {
    var n := |ops| - 1;
    AnswerCount(ops[..n], m);
    if i < n {
      AnswerIndex(ops[..n], m, i);
      assert ops[..n][..i] == ops[..i];
    }
  }

  lemma {:induction false} AnswerCount<K, V>(ops: seq<Operation<K, V>>, m: map<K, V>)
    ensures |AnswersOf(ops, m)| == Lookups(ops)
  {
    if |ops| > 0 { AnswerCount(ops[..|ops| - 1], m); }
  }

  // The answer to the lookup at i of a run: the value of the last put of its key before it, unless a
  // removal came later; without either, what the key was bound to when the run started.
  lemma AnswersAre<K, V>(ops: seq<Operation<K, V>>, m: map<K, V>, i: nat)
    requires i < |ops| && ops[i].Get?
    ensures |AnswersOf(ops, m)| == Lookups(ops) > Lookups(ops[..i])
    ensures var key, answer := ops[i].key, AnswersOf(ops, m)[Lookups(ops[..i])];
      && (forall j: nat :: LastChange(ops[..i], key, j) ==>
            answer == if ops[j].Put? then Some(ops[j].value) else None)
      && (Untouched(ops[..i], key) ==> answer == if key in m then Some(m[key]) else None)
    ensures Untouched(ops[..i], ops[i].key) || exists j: nat :: LastChange(ops[..i], ops[i].key, j)
  {
    hide AnswersOf, MapAfter, Lookups;
    AnswerIndex(ops, m, i);
    BoundAfter(ops[..i], m, ops[i].key);
  }

  // The map, the binary logarithm of capacity + 1, and the tombstones of a large table
  datatype Ledger<K, V> = Ledger(contents: map<K, V>, log: nat, tombs: nat)

  // 15 slots or more, so that not every window shows an Empty byte
  predicate Large(log: nat) { Pow2(log) > 15 }

  ghost predicate Sound<K, V>(l: Ledger<K, V>) {
    |l.contents| <= Allowance(l.log)
  }

  // No Empty byte is left, and the key is not there.
  predicate RunsOn<K(==), V>(l: Ledger<K, V>, key: K) {
    key !in l.contents && Large(l.log) && |l.contents| + l.tombs == Pow2(l.log) - 1
  }

  // A new key takes an Empty byte, or a larger table without tombstones; an erasure leaves a tombstone.
  function Booked<K(==), V>(l: Ledger<K, V>, op: Operation<K, V>): Ledger<K, V> {
    var m := Changed(l.contents, op);
    match op
    case Put(key, _) =>
      if key in l.contents || |l.contents| != Allowance(l.log) then Ledger(m, l.log, l.tombs)
      else Ledger(m, l.log + 1, 0)
    case Get(_) => l
    case Remove(key) =>
      Ledger(m, l.log, if key in l.contents && Large(l.log) then l.tombs + 1 else l.tombs)
  }

  // How many operations of a run come to an end
  function Completed<K(==), V>(l: Ledger<K, V>, ops: seq<Operation<K, V>>): (n: nat)
    ensures n <= |ops|
    decreases |ops|
  {
    if |ops| == 0 || RunsOn(l, ops[0].key) then 0 else 1 + Completed(Booked(l, ops[0]), ops[1..])
  }

  // The books of a run before it, after each of its operations, and at its end
  lemma NothingDone<K, V>(ops: seq<Operation<K, V>>, l: Ledger<K, V>)
    ensures ops[0..] == ops
    ensures MapAfter(ops[..0], l.contents) == l.contents && AnswersOf(ops[..0], l.contents) == []
  {}

  lemma OneDone<K, V>(ops: seq<Operation<K, V>>, i: nat, start: Ledger<K, V>, l: Ledger<K, V>)
    requires i < |ops| && !RunsOn(l, ops[i].key) && l.contents == MapAfter(ops[..i], start.contents)
    ensures Completed(l, ops[i..]) == 1 + Completed(Booked(l, ops[i]), ops[i + 1..])
    ensures Booked(l, ops[i]).contents == MapAfter(ops[..i + 1], start.contents)
    ensures AnswersOf(ops[..i + 1], start.contents)
         == AnswersOf(ops[..i], start.contents) + if ops[i].Get? then [Found(l.contents, ops[i].key)] else []
  {
    assert ops[..i + 1][..i] == ops[..i] && ops[i..][1..] == ops[i + 1..];
  }

  lemma AllDone<K, V>(ops: seq<Operation<K, V>>, i: nat, l: Ledger<K, V>)
    requires i <= |ops| && (i < |ops| ==> RunsOn(l, ops[i].key))
    ensures Completed(l, ops[i..]) == 0
  {}

  // Room for n more erasures: none at all, or fewer than the slots a large table has above its
  // allowance; a small table clears its tombstones before it gets large, with 6 such slots.
  ghost predicate CanErase<K, V>(l: Ledger<K, V>, n: nat) {
    l.tombs + n == 0 || if Large(l.log) then l.tombs + n < Pow2(l.log) - 1 - Allowance(l.log) else n < 6
  }

  // Runs with that few erasures complete; runs without any always do.
  lemma FewErasuresComplete<K, V>(l: Ledger<K, V>, ops: seq<Operation<K, V>>)
    requires |l.contents| <= Allowance(l.log)
    requires || l.tombs + Removals(ops) == 0
             || if Pow2(l.log) >= 16 then l.tombs + Removals(ops) < Pow2(l.log) - 1 - Allowance(l.log)
                else Removals(ops) < 6
    ensures Completed(l, ops) == |ops|
  {
    EachStepErases(l, ops);
  }

  lemma {:induction false} EachStepErases<K, V>(l: Ledger<K, V>, ops: seq<Operation<K, V>>)
    requires Sound(l) && CanErase(l, Removals(ops))
    ensures Completed(l, ops) == |ops|
    decreases |ops|
  {
    if |ops| > 0 {
      ErasureStep(l, ops[0], Removals(ops[1..]));
      hide RunsOn, Booked, Sound, CanErase;
      EachStepErases(Booked(l, ops[0]), ops[1..]);
    }
  }

  lemma ErasureStep<K, V>(l: Ledger<K, V>, op: Operation<K, V>, n: nat)
    requires Sound(l) && CanErase(l, n + if op.Remove? then 1 else 0)
    ensures !RunsOn(l, op.key) && Sound(Booked(l, op)) && CanErase(Booked(l, op), n)
  {
    AllowanceGrows(l.log);
    SlackGrows(l.log);
    FirstLarge(l.log);
    hide Allowance, Pow2;
  }

  lemma FirstLarge(k: nat)
    ensures Large(k) ==> k >= 4 && Large(k + 1)
    ensures !Large(k) && Large(k + 1) ==> Pow2(k + 1) - 1 - Allowance(k + 1) == 6
  {
    assert Pow2(0) == 1 && Pow2(1) == 2 && Pow2(2) == 4 && Pow2(3) == 8 && Pow2(4) == 16;
    assert Allowance(1) == 1;
    assert Allowance(2) == 2;
    assert Allowance(3) == 5;
    assert Allowance(4) == 9;
    if k > 4 { Pow2Mono(4, k); }
  }

  lemma LargeTable(log: nat, cap: nat)
    requires cap + 1 == Pow2(log)
    ensures Large(log) <==> cap >= 15
  {}

  lemma FullByte<K, V>(c: seq<int>, s: seq<Slot<K, V>>, cap: nat, place: map<K, nat>,
                       h: Hasher<K>, epoch: nat, key: K)
    requires Holds(c, s, cap, place, h, epoch) && key in place
    ensures place[key] < cap && 0 <= c[place[key]] < 128
  {
    hide Reached;
  }
}
