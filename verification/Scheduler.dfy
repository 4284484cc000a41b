/**
 The scheduler as the object the source has: fields updated in place, loops over a mutable timer
 vector. Every method is proved to refine the operation of the same name on runtime states.
 */
module SchedulerObject {
  import opened Options
  import opened Runtime
  import opened RuntimeInvariant
  import opened RunLoop
  import opened RunUntil

  // ---- timer vectors -----------------------------------------------------------------------

  predicate TimerLess(a: Timer, b: Timer) {
    if a.due != b.due then a.due < b.due else a.arm < b.arm
  }

  lemma {:induction false} DueConcat(a: seq<Timer>, b: seq<Timer>, t: int)
    ensures DueAt(a + b, t) == DueAt(a, t) + DueAt(b, t)
    decreases |a|
  {
    hide NotDueAt;
    if a == [] {
      assert a + b == b;
    } else {
      var head := if a[0].due == t then [a[0]] else [];
      assert (a + b)[1..] == a[1..] + b && (a + b)[0] == a[0];
      DueConcat(a[1..], b, t);
      assert head + (DueAt(a[1..], t) + DueAt(b, t)) == (head + DueAt(a[1..], t)) + DueAt(b, t);
    }
  }

  lemma {:induction false} NotDueConcat(a: seq<Timer>, b: seq<Timer>, t: int)
    ensures NotDueAt(a + b, t) == NotDueAt(a, t) + NotDueAt(b, t)
    decreases |a|
  {
    hide DueAt;
    if a == [] {
      assert a + b == b;
    } else {
      var head := if a[0].due == t then [] else [a[0]];
      assert (a + b)[1..] == a[1..] + b && (a + b)[0] == a[0];
      NotDueConcat(a[1..], b, t);
      assert head + (NotDueAt(a[1..], t) + NotDueAt(b, t)) == (head + NotDueAt(a[1..], t)) + NotDueAt(b, t);
    }
  }

  lemma {:induction false} NoneDue(a: seq<Timer>, t: int)
    requires forall i :: 0 <= i < |a| ==> a[i].due != t
    ensures NotDueAt(a, t) == a && DueAt(a, t) == []
    decreases |a|
  {
    if a != [] { NoneDue(a[1..], t); }
  }

  /** The timers at the given positions. */
  function Pick(timers: seq<Timer>, idx: seq<nat>): seq<Timer>
    requires forall k :: 0 <= k < |idx| ==> idx[k] < |timers|
  {
    seq(|idx|, k requires 0 <= k < |idx| => timers[idx[k]])
  }

  /** `idx` lists, in ascending order, exactly the positions below `n` that are due at `t`. */
  ghost predicate DuePositions(timers: seq<Timer>, t: int, n: nat, idx: seq<nat>) {
    && n <= |timers|
    && (forall k :: 0 <= k < |idx| ==> idx[k] < n && timers[idx[k]].due == t)
    && (forall k, l :: 0 <= k < l < |idx| ==> idx[k] < idx[l])
    && (forall i :: 0 <= i < n && timers[i].due == t ==> i in idx)
  }

  ghost predicate SortedByArm(timers: seq<Timer>, idx: seq<nat>) {
    && (forall k :: 0 <= k < |idx| ==> idx[k] < |timers|)
    && (forall k, l :: 0 <= k < l < |idx| ==> timers[idx[k]].arm <= timers[idx[l]].arm)
  }

  /** A sorted rearrangement of a strictly ascending list is that list. */
  lemma {:induction false} SortedRearrangementIsSame(timers: seq<Timer>, idx: seq<nat>, sorted: seq<nat>)
    requires SortedByArm(timers, idx) && SortedByArm(timers, sorted)
    requires forall k, l :: 0 <= k < l < |idx| ==> timers[idx[k]].arm < timers[idx[l]].arm
    requires multiset(sorted) == multiset(idx)
    ensures sorted == idx
    decreases |idx|
  {
    SameLength(idx, sorted);
    if idx != [] {
      assert sorted[0] == idx[0] by {
        var k, l := SharedPlaces(idx, sorted);
        assert timers[sorted[0]].arm <= timers[sorted[k]].arm && timers[idx[0]].arm <= timers[idx[l]].arm;
      }
      SameTails(idx, sorted);
      SortedRearrangementIsSame(timers, idx[1..], sorted[1..]);
      assert sorted == [sorted[0]] + sorted[1..] && idx == [idx[0]] + idx[1..];
    }
  }

  lemma SameLength(a: seq<nat>, b: seq<nat>)
    requires multiset(b) == multiset(a)
    ensures |a| == |b|
  {
    assert |multiset(a)| == |a| && |multiset(b)| == |b|;
  }

  lemma SharedPlaces(a: seq<nat>, b: seq<nat>) returns (k: nat, l: nat)
    requires multiset(b) == multiset(a) && a != [] && b != []
    ensures k < |b| && b[k] == a[0] && l < |a| && a[l] == b[0]
  {
    assert a[0] in multiset(b) && b[0] in multiset(a);
    assert a[0] in b && b[0] in a;
    k :| k < |b| && b[k] == a[0];
    l :| l < |a| && a[l] == b[0];
  }

  lemma SameTails(a: seq<nat>, b: seq<nat>)
    requires multiset(b) == multiset(a) && a != [] && b != [] && a[0] == b[0]
    ensures multiset(b[1..]) == multiset(a[1..])
  {
    assert a == [a[0]] + a[1..] && b == [b[0]] + b[1..];
    assert multiset(a[1..]) == multiset(a) - multiset{a[0]};
    assert multiset(b[1..]) == multiset(b) - multiset{b[0]};
  }

  /** The scan for the least (due, arm) key: its due tick is the least of all. */
  method EarliestIndex(timers: seq<Timer>) returns (minIdx: nat)
    requires timers != []
    ensures minIdx < |timers| && timers[minIdx].due == MinDue(timers)
    ensures forall j :: 0 <= j < |timers| ==> !TimerLess(timers[j], timers[minIdx])
  {
    minIdx := 0;
    for i := 1 to |timers|
      invariant minIdx < |timers|
      invariant forall j :: 0 <= j < i ==> !TimerLess(timers[j], timers[minIdx])
    {
      if TimerLess(timers[i], timers[minIdx]) {
        minIdx := i;
      }
    }
  }

  ghost predicate Collected(timers: seq<Timer>, t: int, n: nat, idx: seq<nat>) {
    DuePositions(timers, t, n, idx) && Pick(timers, idx) == DueAt(timers[..n], t)
  }

  lemma CollectStart(timers: seq<Timer>, t: int)
    ensures Collected(timers, t, 0, [])
  {}

  lemma CollectEnd(timers: seq<Timer>, t: int, idx: seq<nat>)
    requires Collected(timers, t, |timers|, idx)
    ensures DuePositions(timers, t, |timers|, idx) && Pick(timers, idx) == DueAt(timers, t)
  {
    assert timers[..|timers|] == timers;
  }

  lemma CollectStep(timers: seq<Timer>, t: int, i: nat, idx: seq<nat>)
    requires i < |timers| && Collected(timers, t, i, idx)
    ensures Collected(timers, t, i + 1, if timers[i].due == t then idx + [i] else idx)
  {
    var one := [timers[i]];
    assert timers[..i + 1] == timers[..i] + one;
    DueConcat(timers[..i], one, t);
    assert DueAt(one, t) == if timers[i].due == t then one else [];
    hide DueAt;
    if timers[i].due == t {
      PositionsGrow(timers, t, i, idx);
      hide DuePositions;
      assert Pick(timers, idx + [i]) == Pick(timers, idx) + one;
    } else {
      PositionsStay(timers, t, i, idx);
      hide DuePositions;
      assert DueAt(timers[..i], t) + [] == DueAt(timers[..i], t);
    }
  }

  lemma PositionsGrow(timers: seq<Timer>, t: int, i: nat, idx: seq<nat>)
    requires DuePositions(timers, t, i, idx) && i < |timers| && timers[i].due == t
    ensures DuePositions(timers, t, i + 1, idx + [i])
    ensures forall k :: 0 <= k < |idx + [i]| ==> (idx + [i])[k] < |timers|
  {
    var idx' := idx + [i];
    assert idx'[|idx|] == i;
    forall j | 0 <= j < i + 1 && timers[j].due == t ensures j in idx' {
      if j < i { assert j in idx; }
    }
  }

  lemma PositionsStay(timers: seq<Timer>, t: int, i: nat, idx: seq<nat>)
    requires DuePositions(timers, t, i, idx) && i < |timers| && timers[i].due != t
    ensures DuePositions(timers, t, i + 1, idx)
    ensures forall k :: 0 <= k < |idx| ==> idx[k] < |timers|
  {}

  method CollectDue(timers: seq<Timer>, t: int) returns (idx: seq<nat>)
    ensures DuePositions(timers, t, |timers|, idx)
    ensures Pick(timers, idx) == DueAt(timers, t)
  {
    hide Collected, DueAt;
    idx := [];
    CollectStart(timers, t);
    for i := 0 to |timers|
      invariant Collected(timers, t, i, idx)
    {
      CollectStep(timers, t, i, idx);
      if timers[i].due == t {
        idx := idx + [i];
      }
    }
    CollectEnd(timers, t, idx);
  }

  /** The first `n` positions are sorted by arm number. */
  ghost predicate PrefixSorted(timers: seq<Timer>, idx: seq<nat>, n: nat) {
    && n <= |idx|
    && (forall k :: 0 <= k < |idx| ==> idx[k] < |timers|)
    && (forall k, l :: 0 <= k < l < n ==> timers[idx[k]].arm <= timers[idx[l]].arm)
  }

  /** With a hole at `b` where `key` belongs: the rest of the first `n` is sorted and what lies after
      the hole has larger arm numbers than `key`. */
  ghost predicate SortedAroundHole(timers: seq<Timer>, idx: seq<nat>, n: nat, b: nat, key: nat) {
    && b < n <= |idx| && key < |timers|
    && (forall k :: 0 <= k < |idx| ==> idx[k] < |timers|)
    && (forall k, l :: 0 <= k < l < n && k != b && l != b ==> timers[idx[k]].arm <= timers[idx[l]].arm)
    && (forall l :: b < l < n ==> timers[key].arm < timers[idx[l]].arm)
  }

  /** The same positions, in another order. */
  ghost predicate SamePositions(s: seq<nat>, idx: seq<nat>) {
    multiset(s) == multiset(idx)
  }

  lemma SameContents(s: seq<nat>, idx: seq<nat>)
    ensures SamePositions(s, idx) <==> multiset(s) == multiset(idx)
  {}

  lemma ShiftKeepsContents(s: seq<nat>, b: nat, key: nat, idx: seq<nat>)
    requires 0 < b < |s| && SamePositions(s[b := key], idx)
    ensures SamePositions(s[b := s[b - 1]][b - 1 := key], idx)
  {
    var x := s[b := key];
    assert s[b := s[b - 1]][b - 1 := key] == x[b := x[b - 1]][b - 1 := x[b]];
    assert multiset(x[b := x[b - 1]]) == multiset(x) - multiset{x[b]} + multiset{x[b - 1]};
    var y := x[b := x[b - 1]];
    assert multiset(y[b - 1 := x[b]]) == multiset(y) - multiset{y[b - 1]} + multiset{x[b]};
  }

  lemma ShiftKeepsSorted(timers: seq<Timer>, s: seq<nat>, n: nat, b: nat, key: nat)
    requires 0 < b && SortedAroundHole(timers, s, n, b, key)
    requires timers[s[b - 1]].arm > timers[key].arm
    ensures SortedAroundHole(timers, s[b := s[b - 1]], n, b - 1, key)
  {}

  lemma FillHole(timers: seq<Timer>, s: seq<nat>, n: nat, b: nat, key: nat)
    requires SortedAroundHole(timers, s, n, b, key)
    requires b == 0 || timers[s[b - 1]].arm <= timers[key].arm
    ensures PrefixSorted(timers, s[b := key], n)
  {
    var f := s[b := key];
    forall k, l | 0 <= k < l < n ensures timers[f[k]].arm <= timers[f[l]].arm {
      if l == b && k < b - 1 { assert timers[s[k]].arm <= timers[s[b - 1]].arm; }
    }
  }

  /** Insertion sort of positions by arm number, for any vector of timers. */
  method SortByArm(timers: seq<Timer>, idx: seq<nat>) returns (sorted: seq<nat>)
    requires forall k :: 0 <= k < |idx| ==> idx[k] < |timers|
    ensures SortedByArm(timers, sorted)
    ensures multiset(sorted) == multiset(idx)
  {
    hide PrefixSorted, SortedAroundHole, SortedByArm, SamePositions;
    sorted := idx;
    StartSorted(timers, idx);
    SameContents(idx, idx);
    var a := 1;
    while a < |sorted|
      invariant 1 <= a && |sorted| == |idx|
      invariant SamePositions(sorted, idx)
      invariant PrefixSorted(timers, sorted, if a <= |sorted| then a else |sorted|)
    {
      var key := sorted[a];
      var b := a;
      assert sorted[b := key] == sorted;
      OpenHole(timers, sorted, a);
      while b > 0 && timers[sorted[b - 1]].arm > timers[key].arm
        invariant 0 <= b <= a < |sorted| == |idx| && key < |timers|
        invariant SamePositions(sorted[b := key], idx)
        invariant SortedAroundHole(timers, sorted, a + 1, b, key)
        invariant forall k :: 0 <= k < |sorted| ==> sorted[k] < |timers|
      {
        ShiftKeepsContents(sorted, b, key, idx);
        ShiftKeepsSorted(timers, sorted, a + 1, b, key);
        sorted := sorted[b := sorted[b - 1]];
        b := b - 1;
      }
      FillHole(timers, sorted, a + 1, b, key);
      sorted := sorted[b := key];
      a := a + 1;
    }
    AllSorted(timers, sorted);
    SameContents(sorted, idx);
  }

  lemma StartSorted(timers: seq<Timer>, idx: seq<nat>)
    requires forall k :: 0 <= k < |idx| ==> idx[k] < |timers|
    ensures PrefixSorted(timers, idx, if 1 <= |idx| then 1 else |idx|)
  {}

  lemma OpenHole(timers: seq<Timer>, s: seq<nat>, a: nat)
    requires a < |s| && PrefixSorted(timers, s, a)
    ensures s[a] < |timers| && SortedAroundHole(timers, s, a + 1, a, s[a])
    ensures forall k :: 0 <= k < |s| ==> s[k] < |timers|
  {}

  lemma AllSorted(timers: seq<Timer>, s: seq<nat>)
    requires PrefixSorted(timers, s, |s|)
    ensures SortedByArm(timers, s)
  {}

  /** What erasing the positions from the back has left when the tail from `p` on is done. */
  ghost predicate ErasedFrom(timers: seq<Timer>, t: int, p: nat, rest: seq<Timer>) {
    p <= |timers| && rest == timers[..p] + NotDueAt(timers[p..], t)
  }

  lemma EraseStep(timers: seq<Timer>, t: int, p: nat, i: nat, rest: seq<Timer>)
    requires ErasedFrom(timers, t, p, rest) && i < p && timers[i].due == t
    requires forall j :: i < j < p ==> timers[j].due != t
    ensures i < |rest| && ErasedFrom(timers, t, i, rest[..i] + rest[i + 1..])
  {
    var gap := timers[i + 1..p];
    NoneDue(gap, t);
    NotDueConcat([timers[i]], gap + timers[p..], t);
    NotDueConcat(gap, timers[p..], t);
    assert timers[i..] == [timers[i]] + (gap + timers[p..]);
    assert NotDueAt(timers[i..], t) == gap + NotDueAt(timers[p..], t);
    hide NotDueAt, DueAt;
    WithoutOne(timers, i, p, NotDueAt(timers[p..], t));
  }

  lemma WithoutOne(s: seq<Timer>, i: nat, p: nat, tail: seq<Timer>)
    requires i < p <= |s|
    ensures var rest := s[..p] + tail; rest[..i] + rest[i + 1..] == s[..i] + (s[i + 1..p] + tail)
  {}

  lemma EraseDone(timers: seq<Timer>, t: int, p: nat, rest: seq<Timer>)
    requires ErasedFrom(timers, t, p, rest)
    requires forall j :: 0 <= j < p ==> timers[j].due != t
    ensures rest == NotDueAt(timers, t)
  {
    NoneDue(timers[..p], t);
    assert timers == timers[..p] + timers[p..];
    NotDueConcat(timers[..p], timers[p..], t);
  }

  /** No due position lies strictly between two neighbours of the list of due positions. */
  lemma NothingBetween(timers: seq<Timer>, t: int, idx: seq<nat>, k: nat)
    requires DuePositions(timers, t, |timers|, idx) && k <= |idx|
    ensures forall j :: (if k > 0 then idx[k - 1] else -1) < j < (if k < |idx| then idx[k] else |timers|)
                        ==> timers[j].due != t
  {
  }

  /** Erase the given positions from the back; what stays keeps its order. */
  method EraseDescending(timers: seq<Timer>, t: int, idx: seq<nat>) returns (rest: seq<Timer>)
    requires DuePositions(timers, t, |timers|, idx)
    ensures rest == NotDueAt(timers, t)
  {
    rest := timers;
    var k := |idx|;
    while k > 0
      invariant 0 <= k <= |idx|
      invariant ErasedFrom(timers, t, if k < |idx| then idx[k] else |timers|, rest)
    {
      NothingBetween(timers, t, idx, k);
      EraseStep(timers, t, if k < |idx| then idx[k] else |timers|, idx[k - 1], rest);
      rest := rest[..idx[k - 1]] + rest[idx[k - 1] + 1..];
      k := k - 1;
    }
    NothingBetween(timers, t, idx, 0);
    EraseDone(timers, t, if idx != [] then idx[0] else |timers|, rest);
  }

  /** `fire_earliest_timers` on the vector alone: min scan, index collection, index sort, move-out
      and descending erase together split off exactly the earliest timers in arm order. */
  method TakeEarliest(timers: seq<Timer>) returns (target: int, firing: seq<Timer>, rest: seq<Timer>)
    requires timers != [] && ArmAscending(timers)
    ensures target == MinDue(timers) && firing == DueAt(timers, target) && rest == NotDueAt(timers, target)
  {
    var minIdx := EarliestIndex(timers);
    target := timers[minIdx].due;
    var dueNow := CollectDue(timers, target);
    var sorted := SortByArm(timers, dueNow);
    SortedRearrangementIsSame(timers, dueNow, sorted);
    firing := Pick(timers, sorted);
    rest := EraseDescending(timers, target, sorted);
  }

  lemma TimersAscend<M>(s: State<M>)
    requires Inv(s, None)
    ensures ArmAscending(s.timers)
  {}

  // ---- the object --------------------------------------------------------------------------

  class Scheduler<M> {
    var ready: seq<ReadyItem>
    var timers: seq<Timer>
    var frames: seq<Frame>
    var futures: seq<Shared>
    var vtime: int
    var enqueued: nat
    var armed: nat
    var resumes: nat
    var fires: seq<Fired>
    var mem: M
    var aborted: bool

    function Abs(): State<M>
      reads this
    {
      State(ready, timers, frames, futures, vtime, enqueued, armed, resumes, fires, mem, aborted)
    }

    ghost predicate Valid()
      reads this
    {
      !aborted ==> Inv(Abs(), None)
    }

    constructor (mem: M)
      ensures Valid() && Abs() == Boot(mem)
    {
      ready, timers, frames, futures, fires := [], [], [], [], [];
      vtime, enqueued, armed, resumes, aborted := 0, 0, 0, 0, false;
      this.mem := mem;
    }

    method Enqueue(t: TaskId)
      modifies this
      ensures Abs() == Schedule(old(Abs()), t)
    {
      ready := ready + [ReadyItem(t, enqueued)];
      enqueued := enqueued + 1;
    }

    method CompleteFuture(f: FutureId)
      requires f < |futures|
      modifies this
      ensures Abs() == Complete(old(Abs()), f)
    {
      if futures[f].ready {
        aborted := true;
      } else {
        var waiter := futures[f].waiter;
        futures := futures[f := futures[f].(ready := true, waiter := None)];
        if waiter.Some? {
          Enqueue(waiter.value);
        }
      }
    }

    method AwaitOnFuture(c: TaskId, f: FutureId)
      requires c < |frames|
      modifies this
      ensures Abs() == ParkOnFuture(old(Abs()), c, f)
    {
      if f >= |futures| {
        aborted := true;
      } else if !futures[f].ready {
        if futures[f].waiter.Some? {
          aborted := true;
        } else {
          futures := futures[f := futures[f].(waiter := Some(c))];
          frames := frames[c := frames[c].(point := AtFuture(f))];
        }
      }
    }

    method AwaitOnTask(c: TaskId, k: TaskId)
      requires c < |frames|
      modifies this
      ensures Abs() == ParkOnTask(old(Abs()), c, k)
    {
      if k < |frames| && frames[k].held {
        var parent := frames[c];
        frames := frames[k := frames[k].(held := false, bound := parent.bound, continuation := Some(c))];
        frames := frames[c := parent.(point := AtTask(k))];
        if parent.bound {
          Enqueue(k);
        }
      }
    }

    method FinalSuspend(c: TaskId)
      requires c < |frames|
      modifies this
      ensures Abs() == Finish(old(Abs()), c)
    {
      var k := frames[c].continuation;
      frames := frames[c := frames[c].(point := Final)];
      if k.Some? && frames[c].bound {
        Enqueue(k.value);
      }
    }

    /** One non-suspending action, by user code or by main code between runs. */
    method Do(a: Action)
      modifies this
      ensures Abs() == Perform(old(Abs()), a)
      ensures |frames| >= old(|frames|)
    {
      match a
      case NewTask => frames := frames + [Frame(Initial, true, false, None)];
      case NewPromise => futures := futures + [Shared(false, None, false)];
      case Spawn(t) =>
        if t < |frames| && frames[t].held {
          frames := frames[t := frames[t].(held := false, bound := true)];
          Enqueue(t);
        }
      case SetValue(f) =>
        if f < |futures| && !futures[f].timerOwned {
          CompleteFuture(f);
        } else {
          aborted := true;
        }
      case Delay(d) =>
        timers := timers + [Timer(vtime + if d > 0 then d else 0, armed, |futures|)];
        futures := futures + [Shared(false, None, true)];
        armed := armed + 1;
      case _ =>
    }

    /** Resume a coroutine: it runs its actions until it suspends. */
    method RunCoroutine(c: TaskId, actions: seq<Action>)
      requires c < |frames|
      modifies this
      ensures Abs() == RunActions(old(Abs()), c, actions)
    {
      var i := 0;
      while i < |actions| && !aborted && frames[c].point == Running && actions[i] != Return
        invariant 0 <= i <= |actions| && c < |frames|
        invariant RunActions(Abs(), c, actions[i..]) == RunActions(old(Abs()), c, actions)
        decreases |actions| - i
      {
        assert actions[i..][1..] == actions[i + 1..];
        if actions[i].AwaitFuture? {
          AwaitOnFuture(c, actions[i].future);
        } else if actions[i].AwaitTask? {
          AwaitOnTask(c, actions[i].task);
        } else {
          Do(actions[i]);
        }
        i := i + 1;
      }
      if !aborted && frames[c].point == Running {
        FinalSuspend(c);
      }
    }

    /** Fulfil the promises of timers already moved out of the pending list. */
    method FireTimers(firing: seq<Timer>)
      modifies this
      ensures Abs() == FireAll(old(Abs()), firing)
    {
      var i := 0;
      while i < |firing| && !aborted
        invariant 0 <= i <= |firing|
        invariant FireAll(Abs(), firing[i..]) == FireAll(old(Abs()), firing)
      {
        assert firing[i..][1..] == firing[i + 1..];
        if firing[i].promise >= |futures| {
          aborted := true;
        } else {
          CompleteFuture(firing[i].promise);
          fires := fires + [Fired(firing[i].arm, firing[i].due, vtime)];
        }
        i := i + 1;
      }
    }

    /** Refines the declarative `Fire`: the index juggling fires exactly the earliest timers, in arm
        order, and keeps the others in order. */
    method FireEarliestTimers()
      requires Valid() && !aborted && timers != []
      modifies this
      ensures Abs() == Fire(old(Abs()))
      ensures Valid() && !aborted && |timers| < old(|timers|)
    {
      hide Inv, ArmAscending, MinDue, DueAt, NotDueAt, FireAll;
      TimersAscend(Abs());
      FireKeeps(Abs());
      var target, firing, rest := TakeEarliest(timers);
      if target > vtime {
        vtime := target;
      }
      timers := rest;
      FireTimers(firing);
    }

    /** One turn of the loop body: pop, resume. */
    method ResumeFront(b: Behaviour<M>)
      requires Valid() && !aborted && ready != []
      modifies this
      ensures Abs() == Resume(b, old(Abs()))
      ensures Valid() && resumes == old(resumes) + 1
    {
      assert ready[0].task < |frames|;
      hide WakeupsOk, TimersOk, RunActions;
      var script := b(Abs(), ready[0].task);
      ResumeKeeps(Abs(), script);
      ResumeClock(Abs(), script);
      var c := ready[0].task;
      ready := ready[1..];
      resumes := resumes + 1;
      frames := frames[c := frames[c].(point := Running)];
      mem := script.mem;
      RunCoroutine(c, script.actions);
    }

    /** `run` (deadline `Never`, no cap) and `run_until`. A loop without a cap need not halt, so an
        uncapped call is given the number of turns after which it does.
        The result is true exactly when the uncapped loop halts within fewer than `maxSteps` resumes, and
        then its final state is reached; false means exactly `maxSteps` resumes happened, even if the
        last of them was all that was missing. */
    method RunUntil(b: Behaviour<M>, d: Deadline, maxSteps: nat, ghost turns: nat) returns (finished: bool)
      requires Valid()
      requires maxSteps == 0 ==> Stopped(Iterate(b, Abs(), d, turns), d)
      modifies this
      ensures Valid()
      ensures finished ==> exists n: nat :: Abs() == Iterate(b, old(Abs()), d, n) && Stopped(Abs(), d)
      ensures finished && !aborted ==> ready == [] && forall i :: 0 <= i < |timers| ==> d.At? && timers[i].due > d.tick
      ensures d.At? && old(vtime) <= d.tick ==> vtime <= d.tick
      ensures finished && maxSteps != 0 ==> resumes < old(resumes) + maxSteps
      ensures !finished ==> maxSteps != 0 && resumes == old(resumes) + maxSteps
      ensures !finished ==> exists n: nat :: Abs() == Iterate(b, old(Abs()), d, n)
      ensures !finished ==> forall m: nat :: Stopped(Iterate(b, old(Abs()), d, m), d) ==>
                Iterate(b, old(Abs()), d, m).resumes >= old(resumes) + maxSteps
    {
      hide Inv, Iterate;
      ghost var start := Abs();
      IterateUnfolds(b, start, d, 0);
      ghost var n: nat := 0;
      ghost var left: nat := turns;
      var steps := 0;
      while !Stopped(Abs(), d)
        invariant Valid()
        invariant Abs() == Iterate(b, start, d, n)
        invariant maxSteps == 0 ==> Stopped(Iterate(b, Abs(), d, left), d)
        invariant maxSteps != 0 ==> steps < maxSteps && resumes == start.resumes + steps
        decreases if maxSteps == 0 then left else maxSteps - steps, |timers|
      {
        IterateAdds(b, start, d, n, 1);
        IterateUnfolds(b, Abs(), d, left);
        n := n + 1;
        left := if left > 0 then left - 1 else 0;
        if ready != [] {
          ResumeFront(b);
          if maxSteps != 0 {
            steps := steps + 1;
            if steps >= maxSteps {
              forall m: nat | Stopped(Iterate(b, start, d, m), d) { CapIsExact(b, start, d, n, m); }
              if d.At? && start.vtime <= d.tick { ClockWithinDeadline(b, start, d.tick, n); }
              return false;
            }
          }
        } else {
          ghost var before := Abs();
          FireEarliestTimers();
          FireResumes(before);
        }
      }
      if !aborted { StoppedExactly(Abs(), if d.At? then d.tick else 0); }
      if d.At? && start.vtime <= d.tick { ClockWithinDeadline(b, start, d.tick, n); }
      return true;
    }

    /** The first `turns` turns of the uncapped loop, also of one that never halts. */
    method Turns(b: Behaviour<M>, d: Deadline, turns: nat)
      requires Valid()
      modifies this
      ensures Valid() && Abs() == Iterate(b, old(Abs()), d, turns)
    {
      hide Inv;
      ghost var start := Abs();
      for i := 0 to turns
        invariant Valid() && Abs() == Iterate(b, start, d, i)
      {
        IterateAdds(b, start, d, i, 1);
        assert Iterate(b, Abs(), d, 1) == Next(b, Abs(), d);
        if !Stopped(Abs(), d) {
          if ready != [] {
            ResumeFront(b);
          } else {
            FireEarliestTimers();
          }
        }
      }
    }
  }

  // ---- the cap on the last resume ----------------------------------------------------------

  /** User code that does nothing and returns. */
  function Idle(s: State<int>, c: TaskId): Script<int> {
    Script([], s.mem)
  }

  /** One spawned coroutine. */
  function OneSpawned(): State<int> {
    Perform(Perform(Boot(0), NewTask), Spawn(0))
  }

  lemma OneResumeFinishes(n: nat)
    ensures OneSpawned().resumes == 0 && !Stopped(OneSpawned(), Never)
    ensures n > 0 ==> Iterate(Idle, OneSpawned(), Never, n).resumes == 1 && Stopped(Iterate(Idle, OneSpawned(), Never, n), Never)
  {
    var s0 := OneSpawned();
    assert s0.ready == [ReadyItem(0, 0)] && s0.frames == [Frame(Initial, false, true, None)];
    var s1 := Next(Idle, s0, Never);
    assert s1 == Resume(Idle, s0);
    assert s1.ready == [] && s1.timers == [] && s1.resumes == 1;
    if n > 0 { StoppedStays(Idle, s1, Never, n - 1); }
  }

  /** The cap is reported although the capped resume was the last one needed: one coroutine, a cap of one,
      the result is false and nothing is left to do. */
  method CapOnTheLastResume() returns (s: Scheduler<int>, finished: bool)
    ensures !finished && Stopped(s.Abs(), Never) && s.resumes == 1
  {
    s := new Scheduler(0);
    s.Do(NewTask);
    s.Do(Spawn(0));
    assert s.Abs() == OneSpawned();
    OneResumeFinishes(0);
    SpawnedIsValid();
    hide OneSpawned, Inv, Iterate, Stopped;
    finished := s.RunUntil(Idle, Never, 1, 0);
    ghost var end := s.Abs();
    ghost var n: nat :| end == Iterate(Idle, OneSpawned(), Never, n);
    OneResumeFinishes(n);
    assert n == 0 ==> end.resumes == 0 by { assert Iterate(Idle, OneSpawned(), Never, 0) == OneSpawned(); }
  }

  lemma BootIsValid()
    ensures Inv(Boot(0), None)
  {}

  lemma SpawnedIsValid()
    ensures Inv(OneSpawned(), None)
  {
    BootIsValid();
    hide Inv, Perform;
    PerformKeeps(Boot(0), NewTask, None);
    PerformKeeps(Perform(Boot(0), NewTask), Spawn(0), None);
  }
}
