/** cmake/coroutine/src/co.c: the cooperative scheduler. A coroutine's function is modelled by how
    often it still yields before it returns; switching registers and stacks is not modelled. */
module Coroutines {
  import opened Bits

  // CO_NONE is never assigned.
  datatype Status = Ready | Running | Suspended | Stopped
  datatype Slot = Null | Co(status: Status, pauses: nat)

  // nco counts the coroutines that have not come to their end.
  predicate Alive(s: Slot) { s.Co? && s.status != Stopped }

  function AliveCount(co: seq<Slot>): (n: nat)
    ensures n <= |co|
  {
    if |co| == 0 then 0 else AliveCount(co[..|co| - 1]) + if Alive(co[|co| - 1]) then 1 else 0
  }

  lemma {:induction false} AliveUpdate(co: seq<Slot>, i: nat, s: Slot)
    requires i < |co|
    ensures AliveCount(co[i := s]) == AliveCount(co) - (if Alive(co[i]) then 1 else 0) + if Alive(s) then 1 else 0
  {
    var n := |co| - 1;
    if i < n {
      AliveUpdate(co[..n], i, s);
      assert co[i := s][..n] == co[..n][i := s];
    } else {
      assert co[i := s][..n] == co[..n];
    }
  }

  lemma {:induction false} AliveAppendNull(co: seq<Slot>, more: seq<Slot>)
    requires forall i :: 0 <= i < |more| ==> more[i] == Null
    ensures AliveCount(co + more) == AliveCount(co)
  {
    if |more| == 0 {
      assert co + more == co;
    } else {
      assert (co + more)[..|co + more| - 1] == co + more[..|more| - 1];
      AliveAppendNull(co, more[..|more| - 1]);
    }
  }

  lemma {:induction false} AllAlive(co: seq<Slot>)
    ensures AliveCount(co) == |co| <==> forall i :: 0 <= i < |co| ==> Alive(co[i])
    ensures AliveCount(co) == 0 <==> forall i :: 0 <= i < |co| ==> !Alive(co[i])
  {
    if |co| > 0 {
      AllAlive(co[..|co| - 1]);
      assert forall i :: 0 <= i < |co| - 1 ==> co[i] == co[..|co| - 1][i];
    }
  }

  // Index of the first null slot from position i on, or the capacity
  function FirstNull(co: seq<Slot>, i: nat): (k: nat)
    requires i <= |co|
    ensures i <= k <= |co| && (k < |co| ==> co[k] == Null) && forall j :: i <= j < k ==> co[j] != Null
    decreases |co| - i
  {
    if i == |co| || co[i] == Null then i else FirstNull(co, i + 1)
  }

  // co_new: the new id; -1 with every slot taken; or a read behind the end of the slots
  datatype NewResult = Created(id: nat) | NoSlot | OutOfBounds

  const DEFAULT_COROUTINE: nat := 15

  // _align: the next capacity of the form 2^k - 1
  method Align(cap: nat) returns (n: nat, ghost k: nat)
    ensures n >= cap && n + 1 == Pow2(k) && (cap > 0 ==> n < 2 * cap)
    ensures forall j: nat :: Pow2(j) - 1 >= cap ==> k <= j
  {
    n, k := 1, 0;
    while n <= cap
      invariant n == Pow2(k) && (n > 1 ==> n <= 2 * cap)
      invariant forall j: nat :: j < k ==> Pow2(j) <= cap
      decreases cap + 1 - n
    {
      n, k := n * 2, k + 1;
    }
    n := n - 1;
  }

  // ---- what resuming does to one slot -------------------------------------------------------

  predicate CanRun(s: Slot) { s.Co? && (s.status == Ready || s.status == Suspended) }

  // How often co_resume will switch to the coroutine
  function Turns(s: Slot): nat { if CanRun(s) then s.pauses + 1 else 0 }

  // One co_resume: run to the next yield or to the end, and reap what has stopped
  function Resumed(s: Slot): Slot {
    if CanRun(s) then (if s.pauses > 0 then Co(Suspended, s.pauses - 1) else Co(Stopped, 0))
    else if s.Co? && s.status == Stopped then Null
    else s
  }

  function ResumedBy(s: Slot, n: nat): Slot {
    if n == 0 then s else Resumed(ResumedBy(s, n - 1))
  }

  // A coroutine takes exactly Turns turns and is reaped at the resume after the last.
  lemma {:induction false} TurnsTaken(s: Slot, n: nat)
    requires s.Co? ==> s.status != Running
    ensures var r := ResumedBy(s, n);
      && (CanRun(r) <==> n < Turns(s)) && (n < Turns(s) ==> Turns(r) == Turns(s) - n)
      && (n > Turns(s) ==> r == Null) && (r.Co? ==> r.status != Running)
      && (n == Turns(s) > 0 ==> r == Co(Stopped, 0))
  {
    if n > 0 { TurnsTaken(s, n - 1); }
  }

  // ---- the order of turns --------------------------------------------------------------------

  // The ids below n that take a turn in pass p, counting from 0
  function PassIds(co: seq<Slot>, p: nat, n: nat): seq<nat>
    requires n <= |co|
  {
    if n == 0 then [] else PassIds(co, p, n - 1) + if p < Turns(co[n - 1]) then [n - 1] else []
  }

  // The ids of the first p passes
  function Schedule(co: seq<Slot>, p: nat): seq<nat> {
    if p == 0 then [] else Schedule(co, p - 1) + PassIds(co, p - 1, |co|)
  }

  function MaxTurns(co: seq<Slot>): (m: nat)
    ensures forall i :: 0 <= i < |co| ==> Turns(co[i]) <= m
    ensures m > 0 ==> exists i :: 0 <= i < |co| && Turns(co[i]) == m
  {
    if |co| == 0 then 0 else
    var rest, last := MaxTurns(co[..|co| - 1]), Turns(co[|co| - 1]);
    assert forall i :: 0 <= i < |co| - 1 ==> co[i] == co[..|co| - 1][i];
    if last > rest then last else rest
  }

  lemma {:induction false} PassIdsAre(co: seq<Slot>, p: nat, n: nat)
    requires n <= |co|
    ensures forall i: nat :: i in PassIds(co, p, n) <==> i < n && p < Turns(co[i])
    ensures forall j, k :: 0 <= j < k < |PassIds(co, p, n)| ==> PassIds(co, p, n)[j] < PassIds(co, p, n)[k]
  {
    hide Turns;
    if n > 0 {
      PassIdsAre(co, p, n - 1);
      var ids, all := PassIds(co, p, n - 1), PassIds(co, p, n);
      assert forall i: nat :: i in all <==> i in ids || (i == n - 1 && p < Turns(co[n - 1]));
      assert forall j :: 0 <= j < |ids| ==> ids[j] in ids;
    }
  }

  // Some coroutine takes a turn in pass p exactly if p is below the largest number of turns.
  lemma SomeTurn(co: seq<Slot>, p: nat)
    ensures PassIds(co, p, |co|) != [] <==> p < MaxTurns(co)
  {
    PassIdsAre(co, p, |co|);
    hide Turns, PassIds;
    var ids := PassIds(co, p, |co|);
    if ids != [] { assert ids[0] in ids; }
    if p < MaxTurns(co) {
      var i :| 0 <= i < |co| && Turns(co[i]) == MaxTurns(co);
      assert i in ids;
    }
  }

  // How often i occurs
  function Times(ids: seq<nat>, i: nat): nat {
    if |ids| == 0 then 0 else Times(ids[..|ids| - 1], i) + if ids[|ids| - 1] == i then 1 else 0
  }

  lemma {:induction false} TimesAppend(a: seq<nat>, b: seq<nat>, i: nat)
    ensures Times(a + b, i) == Times(a, i) + Times(b, i)
  {
    if |b| == 0 {
      assert a + b == a;
    } else {
      assert (a + b)[..|a + b| - 1] == a + b[..|b| - 1];
      TimesAppend(a, b[..|b| - 1], i);
    }
  }

  lemma TimesOne(k: nat, i: nat)
    ensures Times([k], i) == (if k == i then 1 else 0) && Times([], i) == 0
  {
    assert [k][..0] == [];
  }

  lemma {:induction false} TimesInPass(co: seq<Slot>, p: nat, n: nat, i: nat)
    requires n <= |co| && i < |co|
    ensures Times(PassIds(co, p, n), i) == if i < n && p < Turns(co[i]) then 1 else 0
  {
    hide Turns, Times;
    TimesOne(0, i);
    if n > 0 {
      TimesInPass(co, p, n - 1, i);
      TimesOne(n - 1, i);
      TimesAppend(PassIds(co, p, n - 1), if p < Turns(co[n - 1]) then [n - 1] else [], i);
    }
  }

  // Fairness: within p passes coroutine i takes a turn in each pass until it has had all of them.
  lemma {:induction false} TurnsInSchedule(co: seq<Slot>, p: nat, i: nat)
    requires i < |co|
    ensures Times(Schedule(co, p), i) == if p < Turns(co[i]) then p else Turns(co[i])
  {
    hide Turns, Times, PassIds;
    TimesOne(0, i);
    if p > 0 {
      TurnsInSchedule(co, p - 1, i);
      TimesInPass(co, p - 1, |co|, i);
      TimesAppend(Schedule(co, p - 1), PassIds(co, p - 1, |co|), i);
    }
  }

  // No coroutine is running.
  ghost predicate Parked(co: seq<Slot>) {
    forall i :: 0 <= i < |co| && co[i].Co? ==> co[i].status != Running
  }

  lemma StartOfPasses(co: seq<Slot>)
    ensures forall i :: 0 <= i < |co| ==> ResumedBy(co[i], 0) == co[i]
    ensures Schedule(co, 0) == []
  {}

  lemma NextPass(co: seq<Slot>, p: nat)
    ensures Schedule(co, p + 1) == Schedule(co, p) + PassIds(co, p, |co|)
  {}

  lemma AtMostMax(co: seq<Slot>, i: nat)
    requires i < |co|
    ensures Turns(co[i]) <= MaxTurns(co)
  {}

  function Repeat(id: nat, n: nat): seq<nat> {
    if n == 0 then [] else Repeat(id, n - 1) + [id]
  }

  class Scheduler {
    var nco: nat
    var cap: nat
    var runningId: int
    var co: seq<Slot>
    ghost var log: nat
    ghost var trace: seq<nat>   // the ids resumed so far

    ghost predicate Valid()
      reads this
    {
      && |co| == cap && cap + 1 == Pow2(log) && cap > 0
      && nco == AliveCount(co)
      && -1 <= runningId < cap
      && (runningId >= 0 ==> co[runningId].Co?)
      && (forall i :: 0 <= i < cap && co[i].Co? ==> (co[i].status == Running <==> i == runningId))
    }

    // co_open; 0 stands for the default capacity.
    constructor (wanted: nat)
      ensures Valid() && nco == 0 && runningId == -1 && trace == []
      ensures if wanted == 0 then cap == 15 else wanted <= cap < 2 * wanted
      ensures forall i :: 0 <= i < cap ==> co[i] == Null
    {
      var n: nat := DEFAULT_COROUTINE;
      ghost var k: nat := 4;
      if wanted > 0 {
        n, k := Align(wanted);
      }
      cap, log := n, k;
      co := seq(n, _ => Null);
      nco, runningId, trace := 0, -1, [];
      new;
      AllAlive(co);
    }

    // co_new. The scan starts at nco and wraps around modulo cap + 1, so it comes by position cap,
    // which is no slot, unless it finds a null slot first or starts at 0.
    method New(pauses: nat) returns (r: NewResult)
      requires Valid()
      modifies this
      ensures Valid() && runningId == old(runningId) && trace == old(trace)
      ensures r == if old(nco) >= old(cap) then Created(old(cap))
                   else var k := FirstNull(old(co), old(nco));
                     if k < old(cap) then Created(k) else if old(nco) == 0 then NoSlot else OutOfBounds
      ensures r.Created? && r.id < old(cap) ==> cap == old(cap) && co == old(co)[r.id := Co(Ready, pauses)]
      ensures r.Created? && r.id == old(cap) ==>
        cap == 2 * old(cap) + 1 && co[..r.id] == old(co) && co[r.id] == Co(Ready, pauses)
        && forall i :: r.id < i < cap ==> co[i] == Null
      ensures nco == old(nco) + if r.Created? then 1 else 0
      ensures !r.Created? ==> co == old(co) && cap == old(cap)
    {
      hide Pow2, AliveCount, FirstNull;
      if nco >= cap {
        var id := cap;
        var more := seq(cap + 1, _ => Null);
        AliveAppendNull(co, more);
        AliveUpdate(co + more, id, Co(Ready, pauses));
        Pow2Double(log);
        co := (co + more)[id := Co(Ready, pauses)];
        cap, log, nco := 2 * cap + 1, log + 1, nco + 1;
        return Created(id);
      }
      r := Scan();
      if r.Created? {
        AliveUpdate(co, r.id, Co(Ready, pauses));
        co := co[r.id := Co(Ready, pauses)];
        nco := nco + 1;
      }
    }

    // The loop of co_new
    method Scan() returns (r: NewResult)
      requires Valid() && nco < cap
      ensures var k := FirstNull(co, nco);
        r == if k < cap then Created(k) else if nco == 0 then NoSlot else OutOfBounds
    {
      hide Pow2, AliveCount, BitAnd;
      for i := 0 to cap
        invariant i <= FirstNull(co, nco) - nco
      {
        MaskIsMod(i + nco, log);
        WrapsOnce(i + nco, cap);
        var id := BitAnd(i + nco, cap);
        if id == cap {
          return OutOfBounds;
        }
        if co[id] == Null {
          return Created(id);
        }
      }
      return NoSlot;
    }

    // ---- running ---------------------------------------------------------------------------

    // co_swap
    method Swap()
      requires Valid() && runningId >= 0
      modifies this
      ensures Valid() && runningId == -1 && nco == old(nco) && cap == old(cap) && trace == old(trace)
      ensures co == old(co)[old(runningId) := Co(Suspended, old(co[runningId].pauses))]
    {
      var id: nat := runningId;
      AliveUpdate(co, id, co[id].(status := Suspended));
      co := co[id := co[id].(status := Suspended)];
      runningId := -1;
    }

    // _co_main, behind the call of the coroutine's function
    method Finish()
      requires Valid() && runningId >= 0
      modifies this
      ensures Valid() && runningId == -1 && nco == old(nco) - 1 && cap == old(cap) && trace == old(trace)
      ensures co == old(co)[old(runningId) := Co(Stopped, old(co[runningId].pauses))]
    {
      var id: nat := runningId;
      AliveUpdate(co, id, co[id].(status := Stopped));
      co := co[id := co[id].(status := Stopped)];
      nco := nco - 1;
      runningId := -1;
    }

    // The coroutine that was just resumed runs to its next co_swap, or to the end.
    method Execute()
      requires Valid() && runningId >= 0
      modifies this
      ensures Valid() && runningId == -1 && cap == old(cap) && trace == old(trace)
      ensures var p := old(co[runningId].pauses);
        co == old(co)[old(runningId) := if p > 0 then Co(Suspended, p - 1) else Co(Stopped, 0)]
    {
      var id: nat := runningId;
      if co[id].pauses > 0 {
        AliveUpdate(co, id, co[id].(pauses := co[id].pauses - 1));
        co := co[id := co[id].(pauses := co[id].pauses - 1)];
        Swap();
      } else {
        Finish();
      }
    }

    // co_resume
    method Resume(id: nat) returns (ran: bool)
      requires Valid() && runningId == -1 && id < cap
      modifies this
      ensures Valid() && runningId == -1 && cap == old(cap)
      ensures co == old(co)[id := Resumed(old(co[id]))] && ran == CanRun(old(co[id]))
      ensures trace == old(trace) + if ran then [id] else []
    {
      if co[id] == Null {
        return false;
      }
      if CanRun(co[id]) {
        AliveUpdate(co, id, co[id].(status := Running));
        runningId := id;
        co := co[id := co[id].(status := Running)];
        trace := trace + [id];
        Execute();
        return true;
      }
      AliveUpdate(co, id, Null);
      co := co[id := Null];
      return false;
    }

    // co_join: the coroutine takes all its turns in a row and is reaped.
    method Join(id: nat)
      requires Valid() && runningId == -1 && id < cap
      modifies this
      ensures Valid() && runningId == -1 && cap == old(cap)
      ensures co == old(co)[id := Null] && nco == old(nco) - if Alive(old(co[id])) then 1 else 0
      ensures trace == old(trace) + Repeat(id, Turns(old(co[id])))
    {
      ghost var s, n := co[id], 0;
      AliveUpdate(co, id, Null);
      var ran := true;
      while ran
        invariant Valid() && runningId == -1 && cap == old(cap)
        invariant co == old(co)[id := ResumedBy(s, n)]
        invariant if ran then n <= Turns(s) else n == Turns(s) + 1 && ResumedBy(s, n) == Null
        invariant trace == old(trace) + Repeat(id, if ran then n else Turns(s))
        decreases Turns(s) + 1 - n
      {
        TurnsTaken(s, n);
        ran := Resume(id);
        n := n + 1;
        TurnsTaken(s, n);
      }
    }

    // co_wait: round after round, in the order of the ids, until nothing ran in a whole pass
    method Wait() returns (ghost passes: nat)
      requires Valid() && runningId == -1
      modifies this
      ensures Valid() && runningId == -1 && cap == old(cap) && nco == 0
      ensures forall i :: 0 <= i < cap ==> co[i] == Null
      ensures passes == MaxTurns(old(co)) + 1 && trace == old(trace) + Schedule(old(co), passes)
    {
      hide Turns, Resumed, ResumedBy, Schedule, PassIds, MaxTurns, AliveCount, Pow2;
      ghost var co0, most := co, MaxTurns(co);
      StartOfPasses(co0);
      passes := 0;
      var flag := true;
      while flag
        invariant Valid() && runningId == -1 && cap == old(cap) && Parked(co0)
        invariant forall i :: 0 <= i < cap ==> co[i] == ResumedBy(co0[i], passes)
        invariant trace == old(trace) + Schedule(co0, passes)
        invariant if flag then passes <= most else passes == most + 1
        decreases most + 1 - passes
      {
        SomeTurn(co0, passes);
        NextPass(co0, passes);
        flag := Pass(co0, passes);
        passes := passes + 1;
      }
      forall i | 0 <= i < cap
        ensures co[i] == Null
      {
        TurnsTaken(co0[i], passes);
        AtMostMax(co0, i);
      }
      AllAlive(co);
    }

    // One pass of co_wait over all slots
    method Pass(ghost co0: seq<Slot>, ghost p: nat) returns (flag: bool)
      requires Valid() && runningId == -1 && |co0| == cap && Parked(co0)
      requires forall i :: 0 <= i < cap ==> co[i] == ResumedBy(co0[i], p)
      modifies this
      ensures Valid() && runningId == -1 && cap == old(cap)
      ensures forall i :: 0 <= i < cap ==> co[i] == ResumedBy(co0[i], p + 1)
      ensures trace == old(trace) + PassIds(co0, p, cap) && flag == (PassIds(co0, p, cap) != [])
    {
      hide Turns, Resumed, AliveCount, Pow2;
      flag := false;
      for i := 0 to cap
        invariant Valid() && runningId == -1 && cap == old(cap)
        invariant forall k :: 0 <= k < cap ==> co[k] == ResumedBy(co0[k], if k < i then p + 1 else p)
        invariant trace == old(trace) + PassIds(co0, p, i) && flag == (PassIds(co0, p, i) != [])
      {
        TurnsTaken(co0[i], p);
        var ran := Resume(i);
        if ran {
          flag := true;
        }
      }
    }
  }

  function Largest(bodies: seq<nat>): (m: nat)
    ensures forall i :: 0 <= i < |bodies| ==> bodies[i] <= m
    ensures |bodies| > 0 ==> exists i :: 0 <= i < |bodies| && bodies[i] == m
  {
    if |bodies| == 0 then 0 else
    var rest, last := Largest(bodies[..|bodies| - 1]), bodies[|bodies| - 1];
    assert forall i :: 0 <= i < |bodies| - 1 ==> bodies[i] == bodies[..|bodies| - 1][i];
    if |bodies| == 1 || last > rest then last else rest
  }

  // Slots as a batch of fresh coroutines leaves them
  ghost predicate IsBatch(co: seq<Slot>, bodies: seq<nat>, n: nat) {
    && n <= |bodies| && n <= |co|
    && (forall i :: 0 <= i < n ==> co[i] == Co(Ready, bodies[i]))
    && (forall i :: n <= i < |co| ==> co[i] == Null)
  }

  lemma BatchPasses(co: seq<Slot>, bodies: seq<nat>)
    requires IsBatch(co, bodies, |bodies|)
    ensures MaxTurns(co) == if |bodies| == 0 then 0 else Largest(bodies) + 1
  {
    if |bodies| > 0 {
      var i :| 0 <= i < |bodies| && bodies[i] == Largest(bodies);
      assert Turns(co[i]) == Largest(bodies) + 1;
    }
  }

  // Coroutines that are created one after the other and then waited for: co_wait makes two passes
  // more than the largest number of yields, coroutine i takes bodies[i] + 1 turns, in the order of
  // the ids in each pass, and every slot is reaped.
  method Batch(wanted: nat, bodies: seq<nat>) returns (s: Scheduler, ghost passes: nat, ghost co0: seq<Slot>)
    ensures IsBatch(co0, bodies, |bodies|) && s.trace == Schedule(co0, passes)
    ensures passes == if |bodies| == 0 then 1 else Largest(bodies) + 2
    ensures forall i :: 0 <= i < |bodies| ==> Times(s.trace, i) == bodies[i] + 1
    ensures s.Valid() && s.nco == 0 && forall i :: 0 <= i < s.cap ==> s.co[i] == Null
  {
    hide Turns, Schedule, MaxTurns, AliveCount, Pow2, Times, Largest;
    s := new Scheduler(wanted);
    for i := 0 to |bodies|
      invariant fresh(s) && s.Valid() && s.runningId == -1 && s.trace == [] && s.nco == i
      invariant IsBatch(s.co, bodies, i)
    {
      var r := s.New(bodies[i]);
      assert r == Created(i);
    }
    co0 := s.co;
    passes := s.Wait();
    BatchPasses(co0, bodies);
    assert s.trace == Schedule(co0, passes);
    forall i | 0 <= i < |bodies|
      ensures Times(s.trace, i) == bodies[i] + 1
    {
      TurnsInSchedule(co0, passes, i);
      TurnsOfReady(bodies[i]);
      AtMostMax(co0, i);
    }
  }

  lemma TurnsOfReady(n: nat)
    ensures Turns(Co(Ready, n)) == n + 1
  {}

  // A coroutine that ended and was reaped leaves a gap below nco: with the slots from nco on taken,
  // the scan reads behind the last slot although there is a free one.
  method GapGoesUnnoticed() returns (r: NewResult)
    ensures r == OutOfBounds
  {
    var s := new Scheduler(1);
    var r0 := s.New(0);
    var r1 := s.New(0);
    var r2 := s.New(0);
    s.Join(0);
    r := s.New(0);
  }

  // With every slot taken by coroutines that have ended and nobody has reaped, nco is 0 and the
  // scan finds nothing.
  method StoppedSlotsFill() returns (r: NewResult)
    ensures r == NoSlot
  {
    var s := new Scheduler(1);
    var r0 := s.New(0);
    var ran := s.Resume(0);
    AllAlive(s.co);
    r := s.New(0);
  }

  // co_open(0, 0): with 15 slots the fourth coroutine still finds a free one, although the first
  // has been joined and the scan starts at nco.
  method FourthInDefault() returns (ids: seq<NewResult>, slots: seq<Slot>)
    ensures ids == [Created(0), Created(1), Created(2), Created(3)]
    ensures |slots| == 15 && slots[0] == Null && forall i :: 1 <= i < 4 ==> slots[i] == Co(Ready, 0)
  {
    hide Pow2, AliveCount, Turns, Repeat;
    var s := new Scheduler(0);
    var r0 := s.New(0);
    var r1 := s.New(0);
    var r2 := s.New(0);
    s.Join(0);
    var r3 := s.New(0);
    ids, slots := [r0, r1, r2, r3], s.co;
  }

  lemma WrapsOnce(x: nat, cap: nat)
    ensures x <= cap ==> x % (cap + 1) == x
  {
    if x <= cap { DivModUnique(x, cap + 1, 0, x); }
  }
}
