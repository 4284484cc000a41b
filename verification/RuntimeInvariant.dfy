/**
 What every reachable state of the runtime keeps: each unfinished suspended coroutine sits in
 exactly one place, tickets leave the ready queue in the order they were issued, and every armed
 timer is either still pending or fired exactly once, at its due tick.
 */
module RuntimeInvariant {
  import opened Options
  import opened Runtime

  ghost predicate Queued<M>(s: State<M>, c: TaskId) {
    exists i :: 0 <= i < |s.ready| && s.ready[i].task == c
  }

  ghost predicate QueueOk<M>(s: State<M>) {
    && s.resumes + |s.ready| == s.enqueued
    && (forall i :: 0 <= i < |s.ready| ==> s.ready[i].ticket == s.resumes + i)
    && (forall i :: 0 <= i < |s.ready| ==> s.ready[i].task < |s.frames|)
    && (forall i, j :: 0 <= i < j < |s.ready| ==> s.ready[i].task != s.ready[j].task)
  }

  ghost predicate FrameOk<M>(s: State<M>, c: TaskId)
    requires c < |s.frames|
  {
    var fr := s.frames[c];
    && (fr.held ==> fr.point == Initial && fr.continuation == None)
    && (!fr.held ==> fr.bound)
    && match fr.point
       case Initial => Queued(s, c) == !fr.held
       case AtFuture(f) =>
         && f < |s.futures|
         && Queued(s, c) == s.futures[f].ready
         && (!s.futures[f].ready ==> s.futures[f].waiter == Some(c))
       case AtTask(k) =>
         && k < |s.frames|
         && !s.frames[k].held
         && s.frames[k].continuation == Some(c)
         && Queued(s, c) == (s.frames[k].point == Final)
       case Running => !Queued(s, c)
       case Final => !Queued(s, c)
  }

  ghost predicate FramesOk<M>(s: State<M>) {
    forall c :: 0 <= c < |s.frames| ==> FrameOk(s, c)
  }

  ghost predicate WaitersOk<M>(s: State<M>) {
    forall f :: 0 <= f < |s.futures| && s.futures[f].waiter.Some? ==>
      && !s.futures[f].ready
      && s.futures[f].waiter.value < |s.frames|
      && s.frames[s.futures[f].waiter.value].point == AtFuture(f)
  }

  ghost predicate ContinuationsOk<M>(s: State<M>) {
    forall k :: 0 <= k < |s.frames| && s.frames[k].continuation.Some? && s.frames[k].point != Final ==>
      && s.frames[k].continuation.value < |s.frames|
      && s.frames[s.frames[k].continuation.value].point == AtTask(k)
  }

  /** Exactly the coroutine `r`, if any, is on the host stack. */
  ghost predicate OnlyRunning<M>(s: State<M>, r: Option<TaskId>) {
    && (r.Some? ==> r.value < |s.frames|)
    && forall c :: 0 <= c < |s.frames| ==> (s.frames[c].point == Running <==> r == Some(c))
  }

  ghost predicate WakeupsOk<M>(s: State<M>, r: Option<TaskId>) {
    && QueueOk(s)
    && FramesOk(s)
    && WaitersOk(s)
    && ContinuationsOk(s)
    && OnlyRunning(s, r)
  }

  // ---- the wake-up half, one operation at a time ------------------------------------------

  lemma ScheduleQueues<M>(s: State<M>, t: TaskId)
    ensures forall c :: Queued(Schedule(s, t), c) <==> Queued(s, c) || c == t
  {
    var s' := Schedule(s, t);
    forall c ensures Queued(s', c) <==> Queued(s, c) || c == t {
      if Queued(s, c) {
        var i :| 0 <= i < |s.ready| && s.ready[i].task == c;
        assert s'.ready[i].task == c;
      }
      if c == t { assert s'.ready[|s.ready|].task == c; }
    }
  }

  lemma PopDequeues<M>(s: State<M>)
    requires QueueOk(s) && s.ready != []
    ensures forall c :: (exists i :: 0 <= i < |s.ready[1..]| && s.ready[1..][i].task == c)
                        <==> Queued(s, c) && c != s.ready[0].task
  {
    forall c ensures (exists i :: 0 <= i < |s.ready[1..]| && s.ready[1..][i].task == c)
                     <==> Queued(s, c) && c != s.ready[0].task
    {
      if Queued(s, c) && c != s.ready[0].task {
        var i :| 0 <= i < |s.ready| && s.ready[i].task == c;
        assert s.ready[1..][i - 1].task == c;
      }
    }
  }

  lemma AbortKeeps<M>(s: State<M>, r: Option<TaskId>)
    requires WakeupsOk(s, r)
    ensures WakeupsOk(Abort(s), r)
  {
    forall c | 0 <= c < |s.frames| ensures FrameOk(Abort(s), c) {
      assert FrameOk(s, c) && (Queued(Abort(s), c) <==> Queued(s, c));
    }
  }

  lemma SpawnKeeps<M>(s: State<M>, t: TaskId, r: Option<TaskId>)
    requires WakeupsOk(s, r)
    ensures WakeupsOk(SpawnTask(s, t), r)
  {
    if t < |s.frames| && s.frames[t].held {
      var s1 := SetFrame(s, t, s.frames[t].(held := false, bound := true));
      var s' := SpawnTask(s, t);
      assert FrameOk(s, t);
      ScheduleQueues(s1, t);
      forall c | 0 <= c < |s'.frames| ensures FrameOk(s', c) {
        assert FrameOk(s, c) && (Queued(s1, c) <==> Queued(s, c));
      }
    }
  }

  lemma CompleteKeeps<M>(s: State<M>, f: FutureId, r: Option<TaskId>)
    requires WakeupsOk(s, r) && f < |s.futures|
    ensures WakeupsOk(Complete(s, f), r)
  {
    var sh := s.futures[f];
    var s' := Complete(s, f);
    if !sh.ready {
      var s1 := s.(futures := s.futures[f := sh.(ready := true, waiter := None)]);
      if sh.waiter.Some? {
        assert FrameOk(s, sh.waiter.value);
        ScheduleQueues(s1, sh.waiter.value);
      }
      forall c | 0 <= c < |s'.frames| ensures FrameOk(s', c) {
        assert FrameOk(s, c) && (Queued(s1, c) <==> Queued(s, c));
      }
    } else {
      AbortKeeps(s, r);
    }
  }

  lemma CreateTaskKeeps<M>(s: State<M>, r: Option<TaskId>)
    requires WakeupsOk(s, r)
    ensures WakeupsOk(CreateTask(s), r)
  {
    var s' := CreateTask(s);
    forall c | 0 <= c < |s'.frames| ensures FrameOk(s', c) {
      assert Queued(s', c) <==> Queued(s, c);
      if c < |s.frames| { assert FrameOk(s, c); }
    }
  }

  lemma CreatePromiseKeeps<M>(s: State<M>, timerOwned: bool, r: Option<TaskId>)
    requires WakeupsOk(s, r)
    ensures WakeupsOk(CreatePromise(s, timerOwned), r)
  {
    var s' := CreatePromise(s, timerOwned);
    forall c | 0 <= c < |s'.frames| ensures FrameOk(s', c) {
      assert FrameOk(s, c) && (Queued(s', c) <==> Queued(s, c));
    }
  }

  lemma ParkOnFutureKeeps<M>(s: State<M>, c: TaskId, f: FutureId)
    requires WakeupsOk(s, Some(c))
    ensures var s' := ParkOnFuture(s, c, f);
            WakeupsOk(s', if s'.frames[c].point == Running then Some(c) else None)
  {
    if f < |s.futures| && !s.futures[f].ready && s.futures[f].waiter == None {
      var s' := ParkOnFuture(s, c, f);
      assert FrameOk(s, c);
      forall d | 0 <= d < |s'.frames| ensures FrameOk(s', d) {
        assert FrameOk(s, d) && (Queued(s', d) <==> Queued(s, d));
      }
    } else {
      AbortKeeps(s, Some(c));
    }
  }

  lemma ParkOnTaskKeeps<M>(s: State<M>, c: TaskId, k: TaskId)
    requires WakeupsOk(s, Some(c))
    ensures var s' := ParkOnTask(s, c, k);
            WakeupsOk(s', if s'.frames[c].point == Running then Some(c) else None)
  {
    if k < |s.frames| && s.frames[k].held {
      assert FrameOk(s, k) && FrameOk(s, c);
      assert s.frames[k].point == Initial && s.frames[c].point == Running && !Queued(s, k);
      ParkOnTaskFrames(s, c, k);
      hide FramesOk, FrameOk;
    }
  }

  lemma ParkOnTaskFrames<M>(s: State<M>, c: TaskId, k: TaskId)
    requires WakeupsOk(s, Some(c)) && k < |s.frames| && s.frames[k].held
    ensures FramesOk(ParkOnTask(s, c, k))
  {
    var s' := ParkOnTask(s, c, k);
    assert FrameOk(s, k) && FrameOk(s, c);
    var s1 := SetFrame(s, k, s.frames[k].(held := false, bound := s.frames[c].bound, continuation := Some(c)));
    var s2 := SetFrame(s1, c, s.frames[c].(point := AtTask(k)));
    ScheduleQueues(s2, k);
    hide QueueOk;
    forall d | 0 <= d < |s'.frames| ensures FrameOk(s', d) {
      assert FrameOk(s, d) && (Queued(s2, d) <==> Queued(s, d));
    }
  }

  lemma FinishKeeps<M>(s: State<M>, c: TaskId)
    requires WakeupsOk(s, Some(c))
    ensures WakeupsOk(Finish(s, c), None)
  {
    var s1 := SetFrame(s, c, s.frames[c].(point := Final));
    var s' := Finish(s, c);
    assert FrameOk(s, c);
    if s.frames[c].continuation.Some? {
      assert FrameOk(s, s.frames[c].continuation.value);
      ScheduleQueues(s1, s.frames[c].continuation.value);
    }
    forall d | 0 <= d < |s'.frames| ensures FrameOk(s', d) {
      assert FrameOk(s, d) && (Queued(s1, d) <==> Queued(s, d));
    }
  }

  lemma PopKeeps<M>(s: State<M>, mem: M)
    requires WakeupsOk(s, None) && s.ready != []
    ensures var c := s.ready[0].task;
            WakeupsOk(SetFrame(s, c, s.frames[c].(point := Running))
                      .(ready := s.ready[1..], resumes := s.resumes + 1, mem := mem), Some(c))
  {
    var c := s.ready[0].task;
    var s' := SetFrame(s, c, s.frames[c].(point := Running))
              .(ready := s.ready[1..], resumes := s.resumes + 1, mem := mem);
    PopDequeues(s);
    assert Queued(s, c) && FrameOk(s, c);
    forall d | 0 <= d < |s'.frames| ensures FrameOk(s', d) {
      assert FrameOk(s, d) && (Queued(s', d) <==> Queued(s, d) && d != c);
    }
  }

  // ---- the timer half ---------------------------------------------------------------------

  ghost predicate ArmAscending(timers: seq<Timer>) {
    forall i, j :: 0 <= i < j < |timers| ==> timers[i].arm < timers[j].arm
  }

  /** Timers are told apart by their arm number and by their promise alike. */
  ghost predicate Distinct(timers: seq<Timer>) {
    forall x, y :: x in timers && y in timers && (x.arm == y.arm || x.promise == y.promise) ==> x == y
  }

  ghost predicate PendingOk<M>(s: State<M>, all: seq<Timer>) {
    && Distinct(all)
    && (forall x :: x in all ==>
          x.arm < s.armed && x.promise < |s.futures| && s.futures[x.promise].timerOwned && !s.futures[x.promise].ready)
    && (forall f :: 0 <= f < |s.futures| && s.futures[f].timerOwned && !s.futures[f].ready ==>
          exists x :: x in all && x.promise == f)
  }

  ghost predicate FiredOk<M>(s: State<M>, all: seq<Timer>) {
    && (forall i :: 0 <= i < |s.fires| ==> s.fires[i].at == s.fires[i].due <= s.vtime && s.fires[i].arm < s.armed)
    && (forall i, j :: 0 <= i < j < |s.fires| ==> s.fires[i].arm != s.fires[j].arm)
    && (forall i, x :: 0 <= i < |s.fires| && x in all ==> s.fires[i].arm != x.arm)
    && |s.fires| + |all| == s.armed
  }

  /** The timer invariant while the timers `firing` have been moved out and not yet fired. */
  ghost predicate TimersOk<M>(s: State<M>, firing: seq<Timer>) {
    && ArmAscending(s.timers) && ArmAscending(firing)
    && (forall x :: x in firing ==> x !in s.timers)
    && (forall x :: x in firing ==> x.due == s.vtime)
    && (forall x :: x in s.timers ==> x.due >= s.vtime)
    && PendingOk(s, s.timers + firing)
    && FiredOk(s, s.timers + firing)
  }

  lemma {:induction false} SplitMembers(timers: seq<Timer>, t: int)
    ensures forall x :: x in DueAt(timers, t) <==> x in timers && x.due == t
    ensures forall x :: x in NotDueAt(timers, t) <==> x in timers && x.due != t
    ensures |DueAt(timers, t)| + |NotDueAt(timers, t)| == |timers|
  {
    if timers != [] {
      SplitMembers(timers[1..], t);
      assert timers == [timers[0]] + timers[1..];
    }
  }

  lemma ConsAscending(x: Timer, xs: seq<Timer>)
    requires ArmAscending(xs) && forall y :: y in xs ==> x.arm < y.arm
    ensures ArmAscending([x] + xs)
  {
    assert forall j :: 0 < j < |[x] + xs| ==> ([x] + xs)[j] == xs[j - 1] && xs[j - 1] in xs;
  }

  lemma {:induction false} SplitAscending(timers: seq<Timer>, t: int)
    requires ArmAscending(timers)
    ensures ArmAscending(DueAt(timers, t)) && ArmAscending(NotDueAt(timers, t))
  {
    if timers != [] {
      SplitAscending(timers[1..], t);
      SplitMembers(timers[1..], t);
      assert forall y :: y in timers[1..] ==> timers[0].arm < y.arm;
      if timers[0].due == t {
        ConsAscending(timers[0], DueAt(timers[1..], t));
      } else {
        ConsAscending(timers[0], NotDueAt(timers[1..], t));
      }
    }
  }

  lemma ArmKeepsTimers<M>(s: State<M>, ticks: int)
    requires TimersOk(s, [])
    ensures TimersOk(ArmTimer(s, ticks), [])
    ensures var s' := ArmTimer(s, ticks);
            && |s'.timers| == |s.timers| + 1 && s'.timers[..|s.timers|] == s.timers
            && s.vtime <= s'.timers[|s.timers|].due
            && (ticks >= 0 ==> s'.timers[|s.timers|].due - s.vtime == ticks)
            && (ticks <= 0 ==> s'.timers[|s.timers|].due == s.vtime)
  {
    var s' := ArmTimer(s, ticks);
    var added := s'.timers[|s.timers|];
    assert s.timers + [] == s.timers && s'.timers + [] == s'.timers;
    assert s'.timers == s.timers + [added];
    ArmPending(s, s', added);
    ArmFired(s, s', added);
    hide PendingOk, FiredOk, Distinct;
  }

  lemma ArmPending<M>(s: State<M>, s': State<M>, added: Timer)
    requires PendingOk(s, s.timers)
    requires s'.armed == s.armed + 1 && s'.futures == s.futures + [Shared(false, None, true)]
    requires s'.timers == s.timers + [added] && added.arm == s.armed && added.promise == |s.futures|
    ensures PendingOk(s', s'.timers)
  {
    assert added in s'.timers;
    forall f | 0 <= f < |s'.futures| && s'.futures[f].timerOwned && !s'.futures[f].ready
      ensures exists x :: x in s'.timers && x.promise == f
    {
      if f < |s.futures| {
        var x :| x in s.timers && x.promise == f;
        assert x in s'.timers;
      }
    }
  }

  lemma ArmFired<M>(s: State<M>, s': State<M>, added: Timer)
    requires FiredOk(s, s.timers) && s'.armed == s.armed + 1 && s'.fires == s.fires && s'.vtime == s.vtime
    requires s'.timers == s.timers + [added] && added.arm == s.armed
    ensures FiredOk(s', s'.timers)
  {}

  /** The timer half depends on nothing but the timers, the clock, the fire events and the futures that
      timers own. */
  lemma FrameWriteKeepsTimers<M>(s: State<M>, s': State<M>)
    requires TimersOk(s, [])
    requires s'.timers == s.timers && s'.vtime == s.vtime && s'.armed == s.armed && s'.fires == s.fires
    requires |s.futures| <= |s'.futures|
    requires forall f :: 0 <= f < |s.futures| ==>
      && s'.futures[f].timerOwned == s.futures[f].timerOwned
      && (s.futures[f].timerOwned ==> s'.futures[f].ready == s.futures[f].ready)
    requires forall f :: |s.futures| <= f < |s'.futures| ==> !s'.futures[f].timerOwned
    ensures TimersOk(s', [])
  {
    PendingFrame(s, s', s.timers + []);
    FiredSame(s, s', s.timers + [], s.timers + []);
    hide PendingOk, FiredOk;
  }

  lemma PendingFrame<M>(s: State<M>, s': State<M>, all: seq<Timer>)
    requires PendingOk(s, all) && s'.armed == s.armed && |s.futures| <= |s'.futures|
    requires forall f :: 0 <= f < |s.futures| ==>
      && s'.futures[f].timerOwned == s.futures[f].timerOwned
      && (s.futures[f].timerOwned ==> s'.futures[f].ready == s.futures[f].ready)
    requires forall f :: |s.futures| <= f < |s'.futures| ==> !s'.futures[f].timerOwned
    ensures PendingOk(s', all)
  {}

  /** The order of the pending timers does not matter to the two invariants. */
  lemma PendingSame<M>(s: State<M>, s': State<M>, a: seq<Timer>, b: seq<Timer>)
    requires PendingOk(s, a) && s'.armed == s.armed && s'.futures == s.futures
    requires forall x :: x in b <==> x in a
    ensures PendingOk(s', b)
  {
    forall f | 0 <= f < |s'.futures| && s'.futures[f].timerOwned && !s'.futures[f].ready
      ensures exists x :: x in b && x.promise == f
    {
      var x :| x in a && x.promise == f;
      assert x in b;
    }
  }

  lemma FiredSame<M>(s: State<M>, s': State<M>, a: seq<Timer>, b: seq<Timer>)
    requires FiredOk(s, a) && s'.armed == s.armed && s'.fires == s.fires && s.vtime <= s'.vtime
    requires |a| == |b| && forall x :: x in b <==> x in a
    ensures FiredOk(s', b)
  {}

  lemma UserCompleteKeepsTimers<M>(s: State<M>, f: FutureId)
    requires TimersOk(s, []) && f < |s.futures| && !s.futures[f].timerOwned
    ensures TimersOk(Complete(s, f), [])
  {
    hide TimersOk;
    FrameWriteKeepsTimers(s, Complete(s, f));
  }

  /** Taking the head of the moved-out timers away keeps the rest apart from it. */
  lemma HeadApart<M>(s: State<M>, firing: seq<Timer>)
    requires TimersOk(s, firing) && firing != []
    ensures forall y :: y in s.timers + firing <==> y == firing[0] || y in s.timers + firing[1..]
    ensures firing[0] !in s.timers + firing[1..]
    ensures ArmAscending(firing[1..])
  {
    var x, rest := firing[0], firing[1..];
    assert firing == [x] + rest;
    HeadFirst(firing);
    hide PendingOk, FiredOk, ArmAscending;
    forall y ensures y in s.timers + firing <==> y == x || y in s.timers + rest {
      assert y in firing <==> y == x || y in rest;
    }
  }

  lemma HeadFirst(firing: seq<Timer>)
    requires ArmAscending(firing) && firing != []
    ensures ArmAscending(firing[1..]) && firing[0] !in firing[1..]
  {
    assert forall y :: y in firing[1..] ==> firing[0].arm < y.arm;
  }

  lemma FireOnePending<M>(s: State<M>, s': State<M>, x: Timer, all: seq<Timer>, rest: seq<Timer>)
    requires PendingOk(s, all) && x in all && x !in rest
    requires forall y :: y in all <==> y == x || y in rest
    requires s'.armed == s.armed && |s'.futures| == |s.futures|
    requires forall f :: 0 <= f < |s.futures| ==>
      s'.futures[f].timerOwned == s.futures[f].timerOwned && s'.futures[f].ready == (s.futures[f].ready || f == x.promise)
    ensures PendingOk(s', rest)
  {
    forall f | 0 <= f < |s'.futures| && s'.futures[f].timerOwned && !s'.futures[f].ready
      ensures exists y :: y in rest && y.promise == f
    {
      var y :| y in all && y.promise == f;
      assert y in rest;
    }
  }

  lemma FireOneKeeps<M>(s: State<M>, firing: seq<Timer>)
    requires TimersOk(s, firing) && firing != []
    ensures firing[0].promise < |s.futures| && !s.futures[firing[0].promise].ready
    ensures var s1 := Complete(s, firing[0].promise);
            TimersOk(s1.(fires := s1.fires + [Fired(firing[0].arm, firing[0].due, s1.vtime)]), firing[1..])
  {
    var x, rest := firing[0], firing[1..];
    assert x in s.timers + firing;
    PendingIsWaiting(s, x, s.timers + firing);
    var s1 := Complete(s, x.promise);
    var s' := s1.(fires := s1.fires + [Fired(x.arm, x.due, s1.vtime)]);
    HeadApart(s, firing);
    FireOnePending(s, s', x, s.timers + firing, s.timers + rest);
    FireOneFired(s, s', x, s.timers + firing, s.timers + rest);
    assert firing == [x] + rest;
    hide PendingOk, FiredOk;
  }

  lemma PendingIsWaiting<M>(s: State<M>, x: Timer, all: seq<Timer>)
    requires PendingOk(s, all) && x in all
    ensures x.arm < s.armed && x.promise < |s.futures| && !s.futures[x.promise].ready
    ensures forall y :: y in all && y.arm == x.arm ==> y == x
  {}

  lemma FireOneFired<M>(s: State<M>, s': State<M>, x: Timer, all: seq<Timer>, rest: seq<Timer>)
    requires FiredOk(s, all) && x in all && x !in rest && |all| == |rest| + 1
    requires forall y :: y in all <==> y == x || y in rest
    requires forall y :: y in all && y.arm == x.arm ==> y == x
    requires x.arm < s.armed && x.due == s.vtime && s'.vtime == s.vtime && s'.armed == s.armed
    requires s'.fires == s.fires + [Fired(x.arm, x.due, s.vtime)]
    ensures FiredOk(s', rest)
  {}

  // ---- whole steps ------------------------------------------------------------------------

  ghost predicate Inv<M>(s: State<M>, r: Option<TaskId>) {
    WakeupsOk(s, r) && TimersOk(s, [])
  }

  lemma PerformKeeps<M>(s: State<M>, a: Action, r: Option<TaskId>)
    requires Inv(s, r)
    ensures Inv(Perform(s, a), r)
    ensures |s.frames| <= |Perform(s, a).frames|
  {
    hide WakeupsOk, TimersOk;
    match a
    case NewTask => CreateTaskKeeps(s, r); FrameWriteKeepsTimers(s, CreateTask(s));
    case NewPromise => CreatePromiseKeeps(s, false, r); FrameWriteKeepsTimers(s, CreatePromise(s, false));
    case Spawn(t) => SpawnKeeps(s, t, r); FrameWriteKeepsTimers(s, SpawnTask(s, t));
    case SetValue(f) =>
      if f < |s.futures| && !s.futures[f].timerOwned {
        CompleteKeeps(s, f, r);
        UserCompleteKeepsTimers(s, f);
      } else {
        AbortKeeps(s, r);
        FrameWriteKeepsTimers(s, Abort(s));
      }
    case Delay(d) =>
      CreatePromiseKeeps(s, true, r);
      TimerFieldsKeepWakeups(CreatePromise(s, true), ArmTimer(s, d), r);
      ArmKeepsTimers(s, d);
    case _ =>
  }

  lemma TimerFieldsKeepWakeups<M>(s: State<M>, s': State<M>, r: Option<TaskId>)
    requires WakeupsOk(s, r)
    requires s'.frames == s.frames && s'.futures == s.futures && s'.ready == s.ready
    requires s'.enqueued == s.enqueued && s'.resumes == s.resumes
    ensures WakeupsOk(s', r)
  {
    forall c | 0 <= c < |s.frames| ensures FrameOk(s', c) {
      assert FrameOk(s, c) && (Queued(s', c) <==> Queued(s, c));
    }
  }

  lemma {:induction false} RunActionsKeeps<M>(s: State<M>, c: TaskId, actions: seq<Action>)
    requires Inv(s, Some(c))
    ensures var s' := RunActions(s, c, actions); !s'.aborted ==> Inv(s', None)
    decreases |actions|, 0
  {
    assert c < |s.frames| && s.frames[c].point == Running;
    hide WakeupsOk, TimersOk;
    if s.aborted {
    } else if actions == [] || actions[0] == Return {
      FinishKeeps(s, c);
      FrameWriteKeepsTimers(s, Finish(s, c));
    } else if actions[0].AwaitFuture? {
      var f := actions[0].future;
      ParkOnFutureKeeps(s, c, f);
      FrameWriteKeepsTimers(s, ParkOnFuture(s, c, f));
      ContinueKeeps(ParkOnFuture(s, c, f), c, actions[1..]);
    } else if actions[0].AwaitTask? {
      var k := actions[0].task;
      ParkOnTaskKeeps(s, c, k);
      FrameWriteKeepsTimers(s, ParkOnTask(s, c, k));
      ContinueKeeps(ParkOnTask(s, c, k), c, actions[1..]);
    } else {
      PerformKeeps(s, actions[0], Some(c));
      RunActionsKeeps(Perform(s, actions[0]), c, actions[1..]);
    }
  }

  lemma ContinueKeeps<M>(s: State<M>, c: TaskId, rest: seq<Action>)
    requires c < |s.frames| && Inv(s, if s.frames[c].point == Running then Some(c) else None)
    ensures var s' := RunActions(s, c, rest); !s'.aborted ==> Inv(s', None)
    decreases |rest|, 1
  {
    if s.frames[c].point == Running { RunActionsKeeps(s, c, rest); }
  }

  /** One resume, whatever the coroutine does: the invariant holds again once it has suspended. */
  lemma ResumeKeeps<M>(s: State<M>, script: Script<M>)
    requires Inv(s, None) && s.ready != []
    ensures var s' := ResumeWith(s, script); !s'.aborted ==> Inv(s', None)
  {
    var c := s.ready[0].task;
    var s1 := SetFrame(s, c, s.frames[c].(point := Running))
              .(ready := s.ready[1..], resumes := s.resumes + 1, mem := script.mem);
    PopKeeps(s, script.mem);
    FrameWriteKeepsTimers(s, s1);
    RunActionsKeeps(s1, c, script.actions);
  }

  function FireEvents(firing: seq<Timer>, at: int): (r: seq<Fired>)
    ensures |r| == |firing|
  {
    if firing == [] then [] else [Fired(firing[0].arm, firing[0].due, at)] + FireEvents(firing[1..], at)
  }

  lemma {:induction false} FireAllKeeps<M>(s: State<M>, firing: seq<Timer>)
    requires WakeupsOk(s, None) && TimersOk(s, firing) && !s.aborted
    ensures var s' := FireAll(s, firing);
            !s'.aborted && Inv(s', None) && s'.vtime == s.vtime && s'.timers == s.timers
    ensures FireAll(s, firing).fires == s.fires + FireEvents(firing, s.vtime)
    decreases |firing|
  {
    hide WakeupsOk, TimersOk;
    if firing != [] {
      FireOneKeeps(s, firing);
      CompleteKeeps(s, firing[0].promise, None);
      var s1 := Complete(s, firing[0].promise);
      var s2 := s1.(fires := s1.fires + [Fired(firing[0].arm, firing[0].due, s1.vtime)]);
      TimerFieldsKeepWakeups(s1, s2, None);
      FireAllKeeps(s2, firing[1..]);
      assert s2.fires + FireEvents(firing[1..], s.vtime) == s.fires + FireEvents(firing, s.vtime);
    }
  }

  /** `fire_earliest_timers` fires exactly the timers with the least due tick, in arm order, each
      with the clock standing at its due tick; the clock never moves back and nothing aborts. */
  lemma FireKeeps<M>(s: State<M>)
    requires Inv(s, None) && s.timers != [] && !s.aborted
    ensures var s' := Fire(s); var t := MinDue(s.timers);
            && !s'.aborted && Inv(s', None)
            && s.vtime <= s'.vtime == t
            && s'.timers == NotDueAt(s.timers, t)
            && s'.fires == s.fires + FireEvents(DueAt(s.timers, t), t)
            && |s'.timers| < |s.timers|
  {
    var t := MinDue(s.timers);
    var s1 := s.(vtime := t, timers := NotDueAt(s.timers, t));
    EarliestNotPast(s);
    SplitMembers(s.timers, t);
    MoveOutKeeps(s, s1, DueAt(s.timers, t));
    hide WakeupsOk, TimersOk;
    TimerFieldsKeepWakeups(s, s1, None);
    FireAllKeeps(s1, DueAt(s.timers, t));
  }

  lemma EarliestNotPast<M>(s: State<M>)
    requires TimersOk(s, []) && s.timers != []
    ensures s.vtime <= MinDue(s.timers)
    ensures DueAt(s.timers, MinDue(s.timers)) != []
  {
    var t := MinDue(s.timers);
    var i :| 0 <= i < |s.timers| && s.timers[i].due == t;
    SplitMembers(s.timers, t);
    assert s.timers[i] in DueAt(s.timers, t);
  }

  lemma MoveOutKeeps<M>(s: State<M>, s1: State<M>, d: seq<Timer>)
    requires TimersOk(s, []) && s.timers != []
    requires var t := MinDue(s.timers);
             d == DueAt(s.timers, t) && s1 == s.(vtime := t, timers := NotDueAt(s.timers, t)) && s.vtime <= t
    ensures TimersOk(s1, d)
  {
    hide PendingOk, FiredOk, NotDueAt, DueAt, ArmAscending, Distinct;
    var t := MinDue(s.timers);
    var all := s1.timers + d;
    SplitMembers(s.timers, t);
    SplitAscending(s.timers, t);
    assert s.timers + [] == s.timers;
    assert forall x :: x in all <==> x in s.timers;
    PendingSame(s, s1, s.timers, all);
    FiredSame(s, s1, s.timers, all);
    NoneEarlier(s.timers);
  }

  lemma NoneEarlier(timers: seq<Timer>)
    requires timers != []
    ensures forall x :: x in timers ==> MinDue(timers) <= x.due
  {}
}
