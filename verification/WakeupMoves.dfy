/**
 What every action of the runtime does, said in terms of the places coroutines sit in: who moves,
 from where to where, and that nobody else does. A resume is a sequence of such moves, one for each
 action the coroutine performs, until it suspends.
 */
module WakeupMoves {
  import opened Options
  import opened Runtime
  import opened RuntimeInvariant
  import opened RunLoop
  import opened RunUntil

  /** Everybody outside `who` sits where it sat. */
  ghost predicate OthersStay<M>(s: State<M>, s': State<M>, who: set<TaskId>) {
    forall d, p :: d !in who ==> (SitsAt(s, d, p) <==> SitsAt(s', d, p))
  }

  /** `t` is put behind everybody in the ready queue. */
  ghost predicate Enqueued<M>(s: State<M>, s': State<M>, t: TaskId) {
    |s'.ready| == |s.ready| + 1 && SitsAt(s', t, InQueue(|s.ready|))
  }

  /** The clock, the program memory and the fire events are left alone. */
  ghost predicate Untimed<M>(s: State<M>, s': State<M>) {
    s'.vtime == s.vtime && s'.mem == s.mem && s'.fires == s.fires && s'.resumes == s.resumes
  }

  ghost predicate FuturesKeep<M>(s: State<M>, s': State<M>, except: FutureId) {
    |s'.futures| == |s.futures| && forall g :: 0 <= g < |s.futures| && g != except ==> s'.futures[g] == s.futures[g]
  }

  // ---- the moves ---------------------------------------------------------------------------

  ghost predicate CreatesTask<M>(s: State<M>, s': State<M>) {
    && |s'.frames| == |s.frames| + 1 && s'.frames[..|s.frames|] == s.frames
    && s'.frames[|s.frames|].held && s'.frames[|s.frames|].point == Initial
    && s'.futures == s.futures && s'.timers == s.timers && OthersStay(s, s', {})
  }

  ghost predicate CreatesPromise<M>(s: State<M>, s': State<M>) {
    && |s'.futures| == |s.futures| + 1 && s'.futures[..|s.futures|] == s.futures
    && s'.futures[|s.futures|] == Shared(false, None, false)
    && s'.timers == s.timers && s'.frames == s.frames && OthersStay(s, s', {})
  }

  /** A held task is released to the back of the queue; any other spawn does nothing. */
  ghost predicate Spawns<M>(s: State<M>, t: TaskId, s': State<M>) {
    if t < |s.frames| && s.frames[t].held then
      && Enqueued(s, s', t) && OthersStay(s, s', {t})
      && |s'.frames| == |s.frames| && !s'.frames[t].held && s'.frames[t].point == Initial
      && s'.futures == s.futures && s'.timers == s.timers
    else s' == s
  }

  /** A pending promise of user code becomes ready, and its waiter moves from the future to the back of the
      queue. Completing it twice, or one the program does not hold, aborts. */
  ghost predicate Completes<M>(s: State<M>, f: FutureId, s': State<M>) {
    if f < |s.futures| && !s.futures[f].timerOwned && !s.futures[f].ready then
      && !s'.aborted && FuturesKeep(s, s', f) && s'.futures[f].ready && s'.timers == s.timers && s'.frames == s.frames
      && (forall w :: !SitsAt(s', w, WaiterOf(f)))
      && (forall w :: SitsAt(s, w, WaiterOf(f)) ==> Enqueued(s, s', w) && OthersStay(s, s', {w}))
      && ((forall w :: !SitsAt(s, w, WaiterOf(f))) ==> OthersStay(s, s', {}))
    else s'.aborted
  }

  /** A timer is added behind the others, due after the given ticks; its promise is a new pending future. */
  ghost predicate Arms<M>(s: State<M>, ticks: int, s': State<M>) {
    && |s'.timers| == |s.timers| + 1 && s'.timers[..|s.timers|] == s.timers
    && s'.timers[|s.timers|].promise == |s.futures|
    && (ticks >= 0 ==> s'.timers[|s.timers|].due - s.vtime == ticks)
    && (ticks <= 0 ==> s'.timers[|s.timers|].due == s.vtime)
    && |s'.futures| == |s.futures| + 1 && s'.futures[..|s.futures|] == s.futures
    && s'.futures[|s.futures|] == Shared(false, None, true)
    && s'.frames == s.frames && OthersStay(s, s', {})
  }

  /** A ready future does not suspend; a pending one takes the coroutine as its waiter; a second waiter
      aborts. */
  ghost predicate AwaitsFuture<M>(s: State<M>, c: TaskId, f: FutureId, s': State<M>) {
    if f >= |s.futures| || (!s.futures[f].ready && exists w :: SitsAt(s, w, WaiterOf(f))) then s'.aborted
    else if s.futures[f].ready then s' == s
    else
      && !s'.aborted && SitsAt(s', c, WaiterOf(f)) && OthersStay(s, s', {c})
      && |s'.frames| == |s.frames| && c < |s.frames| && s'.frames[c].point == AtFuture(f)
      && FuturesKeep(s, s', f) && s'.timers == s.timers && s'.ready == s.ready
  }

  /** A held child goes to the back of the queue with the parent as its continuation; an empty handle does
      not suspend. */
  ghost predicate AwaitsTask<M>(s: State<M>, c: TaskId, k: TaskId, s': State<M>) {
    if k < |s.frames| && s.frames[k].held then
      && !s'.aborted && Enqueued(s, s', k) && SitsAt(s', c, ContinuationOf(k)) && OthersStay(s, s', {c, k})
      && |s'.frames| == |s.frames| && c < |s.frames| && s'.frames[c].point == AtTask(k) && !s'.frames[k].held
      && s'.futures == s.futures && s'.timers == s.timers
    else s' == s
  }

  /** The coroutine is done, and whoever awaited it moves to the back of the queue. */
  ghost predicate Returns<M>(s: State<M>, c: TaskId, s': State<M>) {
    && !s'.aborted && |s'.frames| == |s.frames| && c < |s.frames| && s'.frames[c].point == Final
    && (forall w :: !SitsAt(s', w, ContinuationOf(c)))
    && (forall w :: SitsAt(s, w, ContinuationOf(c)) ==> Enqueued(s, s', w) && OthersStay(s, s', {w}))
    && ((forall w :: !SitsAt(s, w, ContinuationOf(c))) ==> s'.ready == s.ready && OthersStay(s, s', {}))
    && s'.futures == s.futures && s'.timers == s.timers
  }

  /** What one action of the running coroutine `c` does. */
  ghost predicate Effect<M>(s: State<M>, c: TaskId, a: Action, s': State<M>) {
    && Untimed(s, s')
    && match a
       case NewTask => !s'.aborted && CreatesTask(s, s')
       case NewPromise => !s'.aborted && CreatesPromise(s, s')
       case Spawn(t) => !s'.aborted && Spawns(s, t, s')
       case SetValue(f) => Completes(s, f, s')
       case Delay(ticks) => !s'.aborted && Arms(s, ticks, s')
       case AwaitFuture(f) => AwaitsFuture(s, c, f, s')
       case AwaitTask(k) => AwaitsTask(s, c, k, s')
       case Return => Returns(s, c, s')
  }

  // ---- every action makes its move ---------------------------------------------------------

  lemma SetValueWakes<M>(s: State<M>, f: FutureId)
    requires !s.aborted
    ensures Completes(s, f, Perform(s, SetValue(f)))
  {
    var s' := Perform(s, SetValue(f));
    if f < |s.futures| && !s.futures[f].timerOwned && !s.futures[f].ready {
      if s.futures[f].waiter.Some? {
        var w := s.futures[f].waiter.value;
        assert SitsAt(s, w, WaiterOf(f)) && forall v :: SitsAt(s, v, WaiterOf(f)) ==> v == w;
        forall d, p | d != w ensures SitsAt(s, d, p) <==> SitsAt(s', d, p) {}
      } else {
        assert forall v :: !SitsAt(s, v, WaiterOf(f));
      }
    }
  }

  /** In particular: the waiter of the future leaves it and is the last in the queue. */
  lemma WaiterIsWoken<M>(s: State<M>, f: FutureId, c: TaskId)
    requires !s.aborted && SitsAt(s, c, WaiterOf(f)) && !s.futures[f].timerOwned
    ensures var s' := Perform(s, SetValue(f));
            && !s'.aborted && f < |s'.futures| && s'.futures[f].ready
            && SitsAt(s', c, InQueue(|s.ready|)) && !SitsAt(s', c, WaiterOf(f))
  {
    SetValueWakes(s, f);
  }

  lemma SpawnMoves<M>(s: State<M>, t: TaskId)
    requires FramesOk(s)
    ensures Spawns(s, t, Perform(s, Spawn(t)))
  {
    if t < |s.frames| && s.frames[t].held {
      assert FrameOk(s, t);
      var s' := Perform(s, Spawn(t));
      forall d, p | d != t ensures SitsAt(s, d, p) <==> SitsAt(s', d, p) {}
    }
  }

  lemma CreateMoves<M>(s: State<M>)
    ensures CreatesTask(s, Perform(s, NewTask)) && CreatesPromise(s, Perform(s, NewPromise))
  {
    var s1, s2 := Perform(s, NewTask), Perform(s, NewPromise);
    forall d, p ensures (SitsAt(s, d, p) <==> SitsAt(s1, d, p)) && (SitsAt(s, d, p) <==> SitsAt(s2, d, p)) {}
  }

  lemma DelayMoves<M>(s: State<M>, ticks: int)
    ensures Arms(s, ticks, Perform(s, Delay(ticks)))
  {
    var s' := Perform(s, Delay(ticks));
    forall d, p ensures SitsAt(s, d, p) <==> SitsAt(s', d, p) {}
  }

  lemma AwaitFutureMoves<M>(s: State<M>, c: TaskId, f: FutureId)
    requires c < |s.frames| && s.frames[c].point == Running && !s.aborted
    ensures AwaitsFuture(s, c, f, ParkOnFuture(s, c, f))
  {
    var s' := ParkOnFuture(s, c, f);
    if f < |s.futures| && !s.futures[f].ready {
      if s.futures[f].waiter.Some? {
        assert SitsAt(s, s.futures[f].waiter.value, WaiterOf(f));
      } else {
        assert forall v :: !SitsAt(s, v, WaiterOf(f));
        forall d, p | d != c ensures SitsAt(s, d, p) <==> SitsAt(s', d, p) {}
      }
    }
  }

  lemma AwaitTaskMoves<M>(s: State<M>, c: TaskId, k: TaskId)
    requires WakeupsOk(s, Some(c)) && !s.aborted
    ensures AwaitsTask(s, c, k, ParkOnTask(s, c, k))
  {
    if k < |s.frames| && s.frames[k].held {
      assert FrameOk(s, k) && FrameOk(s, c);
      var s' := ParkOnTask(s, c, k);
      hide WakeupsOk, FrameOk;
      forall d, p | d != c && d != k ensures SitsAt(s, d, p) <==> SitsAt(s', d, p) {}
    }
  }

  lemma FinishMoves<M>(s: State<M>, c: TaskId)
    requires WakeupsOk(s, Some(c)) && !s.aborted
    ensures Returns(s, c, Finish(s, c))
  {
    assert FrameOk(s, c) && s.frames[c].bound;
    var s' := Finish(s, c);
    hide WakeupsOk, FrameOk;
    if s.frames[c].continuation.Some? {
      var w := s.frames[c].continuation.value;
      assert SitsAt(s, w, ContinuationOf(c)) && forall v :: SitsAt(s, v, ContinuationOf(c)) ==> v == w;
      forall d, p | d != w ensures SitsAt(s, d, p) <==> SitsAt(s', d, p) {}
    } else {
      assert forall v :: !SitsAt(s, v, ContinuationOf(c));
      forall d, p ensures SitsAt(s, d, p) <==> SitsAt(s', d, p) {}
    }
  }

  // ---- a resume is a sequence of moves -----------------------------------------------------

  /** The states a burst passes through: as long as the coroutine runs it performs its next action, and
      past the last one it returns. */
  ghost predicate Burst<M>(states: seq<State<M>>, c: TaskId, actions: seq<Action>) {
    && 0 < |states| <= |actions| + 2
    && (forall i :: 0 <= i < |states| - 1 ==> Runs(states[i], c) && Effect(states[i], c, NextAction(actions, i), states[i + 1]))
    && !Runs(states[|states| - 1], c)
  }

  predicate Runs<M>(s: State<M>, c: TaskId) {
    !s.aborted && c < |s.frames| && s.frames[c].point == Running
  }

  function NextAction(actions: seq<Action>, i: nat): Action {
    if i < |actions| then actions[i] else Return
  }

  /** One turn of `RunActions`. */
  function Act<M>(s: State<M>, c: TaskId, a: Action): State<M>
    requires c < |s.frames|
  {
    match a
    case AwaitFuture(f) => ParkOnFuture(s, c, f)
    case AwaitTask(k) => ParkOnTask(s, c, k)
    case Return => Finish(s, c)
    case _ => Perform(s, a)
  }

  lemma ActMoves<M>(s: State<M>, c: TaskId, a: Action)
    requires WakeupsOk(s, Some(c)) && !s.aborted
    ensures Effect(s, c, a, Act(s, c, a))
  {
    hide CreatesTask, CreatesPromise, Spawns, Completes, Arms, AwaitsFuture, AwaitsTask, Returns, FramesOk, WaitersOk,
         ContinuationsOk, QueueOk;
    match a
    case NewTask => CreateMoves(s);
    case NewPromise => CreateMoves(s);
    case Spawn(t) => SpawnMoves(s, t);
    case SetValue(f) => SetValueWakes(s, f);
    case Delay(ticks) => DelayMoves(s, ticks);
    case AwaitFuture(f) => AwaitFutureMoves(s, c, f);
    case AwaitTask(k) => AwaitTaskMoves(s, c, k);
    case Return => FinishMoves(s, c);
  }

  lemma ActKeeps<M>(s: State<M>, c: TaskId, a: Action)
    requires Inv(s, Some(c)) && !s.aborted
    ensures var s' := Act(s, c, a);
            && c < |s'.frames| && (Runs(s', c) ==> Inv(s', Some(c))) && (a == Return ==> !Runs(s', c))
  {
    assert c < |s.frames|;
    hide WakeupsOk, TimersOk;
    if a.AwaitFuture? {
      ParkOnFutureKeeps(s, c, a.future);
      FrameWriteKeepsTimers(s, ParkOnFuture(s, c, a.future));
    } else if a.AwaitTask? {
      ParkOnTaskKeeps(s, c, a.task);
      FrameWriteKeepsTimers(s, ParkOnTask(s, c, a.task));
    } else if a != Return {
      PerformKeeps(s, a, Some(c));
    }
  }

  lemma RunActionsUnfolds<M>(s: State<M>, c: TaskId, actions: seq<Action>)
    requires Runs(s, c)
    ensures var a := NextAction(actions, 0); c < |Act(s, c, a).frames| ==>
            RunActions(s, c, actions) ==
              if a == Return then Act(s, c, a) else RunActions(Act(s, c, a), c, actions[1..])
  {}

  lemma StoppedStaysPut<M>(s: State<M>, c: TaskId, actions: seq<Action>)
    requires c < |s.frames| && !Runs(s, c)
    ensures RunActions(s, c, actions) == s
  {}

  lemma {:induction false} RunActionsBurst<M>(s: State<M>, c: TaskId, actions: seq<Action>)
    returns (states: seq<State<M>>)
    requires c < |s.frames| && (Runs(s, c) ==> Inv(s, Some(c)))
    ensures Burst(states, c, actions) && states[0] == s && states[|states| - 1] == RunActions(s, c, actions)
    decreases |actions|
  {
    hide Effect, Inv, RunActions, Act;
    if !Runs(s, c) {
      StoppedStaysPut(s, c, actions);
      states := [s];
    } else {
      var a := NextAction(actions, 0);
      RunningMoves(s, c, a);
      ActKeeps(s, c, a);
      RunActionsUnfolds(s, c, actions);
      var s1 := Act(s, c, a);
      if a == Return {
        states := [s, s1];
      } else {
        var rest := RunActionsBurst(s1, c, actions[1..]);
        states := [s] + rest;
        forall i | 0 <= i < |states| - 1
          ensures Runs(states[i], c) && Effect(states[i], c, NextAction(actions, i), states[i + 1])
        {
          if i > 0 { assert NextAction(actions, i) == NextAction(actions[1..], i - 1); }
        }
      }
    }
  }

  lemma RunningMoves<M>(s: State<M>, c: TaskId, a: Action)
    requires Inv(s, Some(c)) && Runs(s, c)
    ensures Effect(s, c, a, Act(s, c, a))
  {
    hide WakeupsOk, Effect;
    ActMoves(s, c, a);
  }

  /** The front of the queue is on the stack and everybody behind it moves up by one. */
  ghost predicate Popped<M>(s: State<M>, s': State<M>)
    requires s.ready != []
  {
    var c := s.ready[0].task;
    && Runs(s', c) && s'.ready == s.ready[1..] && s'.resumes == s.resumes + 1
    && |s'.frames| == |s.frames| && (forall d :: 0 <= d < |s.frames| && d != c ==> s'.frames[d] == s.frames[d])
    && s'.futures == s.futures && s'.timers == s.timers && s'.vtime == s.vtime && s'.fires == s.fires
  }

  /** Every resume takes the front of the queue, and then the coroutine makes one move for each of its
      actions until it suspends, finishes or aborts. */
  lemma ResumeIsABurst<M>(s: State<M>, script: Script<M>) returns (states: seq<State<M>>)
    requires Inv(s, None) && !s.aborted && s.ready != []
    ensures Burst(states, s.ready[0].task, script.actions)
    ensures Popped(s, states[0]) && states[0].mem == script.mem
    ensures states[|states| - 1] == ResumeWith(s, script)
  {
    var c := s.ready[0].task;
    var s1 := SetFrame(s, c, s.frames[c].(point := Running))
              .(ready := s.ready[1..], resumes := s.resumes + 1, mem := script.mem);
    PopKeeps(s, script.mem);
    FrameWriteKeepsTimers(s, s1);
    hide WakeupsOk, TimersOk, RunActions, Effect;
    states := RunActionsBurst(s1, c, script.actions);
  }

  // ---- timers ------------------------------------------------------------------------------

  function Tasks(items: seq<ReadyItem>): (ts: seq<TaskId>)
    ensures |ts| == |items| && forall i :: 0 <= i < |items| ==> ts[i] == items[i].task
  {
    seq(|items|, i requires 0 <= i < |items| => items[i].task)
  }

  /** Who waits on the given timers, in their order. */
  function Waiting<M>(s: State<M>, timers: seq<Timer>): seq<TaskId>
    requires forall i :: 0 <= i < |timers| ==> timers[i].promise < |s.futures|
  {
    if timers == [] then []
    else
      var w := s.futures[timers[0].promise].waiter;
      (if w.Some? then [w.value] else []) + Waiting(s, timers[1..])
  }

  ghost predicate Pending<M>(s: State<M>, timers: seq<Timer>) {
    && (forall i :: 0 <= i < |timers| ==> timers[i].promise < |s.futures| && !s.futures[timers[i].promise].ready)
    && (forall i, j :: 0 <= i < j < |timers| ==> timers[i].promise != timers[j].promise)
  }

  lemma {:induction false} WaitingSame<M>(s: State<M>, s': State<M>, timers: seq<Timer>)
    requires |s'.futures| == |s.futures|
    requires forall i :: 0 <= i < |timers| ==>
      timers[i].promise < |s.futures| && s'.futures[timers[i].promise] == s.futures[timers[i].promise]
    ensures Waiting(s', timers) == Waiting(s, timers)
    decreases |timers|
  {
    if timers != [] { WaitingSame(s, s', timers[1..]); }
  }

  function OneFired<M>(s: State<M>, x: Timer): State<M>
    requires x.promise < |s.futures|
  {
    var s1 := Complete(s, x.promise);
    s1.(fires := s1.fires + [Fired(x.arm, x.due, s1.vtime)])
  }

  lemma OneFiredWakes<M>(s: State<M>, x: Timer)
    requires !s.aborted && x.promise < |s.futures| && !s.futures[x.promise].ready
    ensures var s' := OneFired(s, x);
            && !s'.aborted && s'.frames == s.frames && |s'.futures| == |s.futures| && s'.futures[x.promise].ready
            && (forall f :: 0 <= f < |s.futures| && f != x.promise ==> s'.futures[f] == s.futures[f])
            && Tasks(s'.ready) == Tasks(s.ready) + Waiting(s, [x])
  {
    var w := s.futures[x.promise].waiter;
    assert Waiting(s, [x]) == if w.Some? then [w.value] else [];
  }

  lemma FireAllUnfolds<M>(s: State<M>, firing: seq<Timer>)
    requires firing != [] && !s.aborted && firing[0].promise < |s.futures|
    ensures FireAll(s, firing) == FireAll(OneFired(s, firing[0]), firing[1..])
  {}

  lemma PendingRest<M>(s: State<M>, firing: seq<Timer>)
    requires Pending(s, firing) && firing != [] && !s.aborted
    ensures var s2 := OneFired(s, firing[0]);
            Pending(s2, firing[1..]) && Waiting(s2, firing[1..]) == Waiting(s, firing[1..])
  {
    OneFiredWakes(s, firing[0]);
    hide OneFired, Tasks;
    WaitingSame(s, OneFired(s, firing[0]), firing[1..]);
  }

  lemma NothingToFire<M>(s: State<M>)
    ensures FireAll(s, []) == s && Tasks(s.ready) == Tasks(s.ready) + Waiting(s, [])
  {}

  lemma WaitingFirst<M>(s: State<M>, timers: seq<Timer>)
    requires timers != [] && forall i :: 0 <= i < |timers| ==> timers[i].promise < |s.futures|
    ensures Waiting(s, timers) == Waiting(s, [timers[0]]) + Waiting(s, timers[1..])
  {
    var w := s.futures[timers[0].promise].waiter;
    var head := if w.Some? then [w.value] else [];
    assert Waiting(s, [timers[0]]) == head + [] == head;
  }

  lemma Associates(a: seq<TaskId>, b: seq<TaskId>, c: seq<TaskId>)
    ensures a + b + c == a + (b + c)
  {}

  lemma {:induction false} FireAllQueues<M>(s: State<M>, firing: seq<Timer>)
    requires Pending(s, firing) && !s.aborted
    ensures var s' := FireAll(s, firing);
            && !s'.aborted && |s'.futures| == |s.futures| && s'.frames == s.frames
            && Tasks(s'.ready) == Tasks(s.ready) + Waiting(s, firing)
    decreases |firing|
  {
    if firing == [] {
      NothingToFire(s);
    } else {
      var x, rest := firing[0], firing[1..];
      var s2 := OneFired(s, x);
      FireAllUnfolds(s, firing);
      OneFiredWakes(s, x);
      PendingRest(s, firing);
      var head := Waiting(s, [x]);
      WaitingFirst(s, firing);
      hide OneFired, FireAll, Tasks, Pending, Waiting;
      FireAllQueues(s2, rest);
      Associates(Tasks(s.ready), head, Waiting(s, rest));
    }
  }

  lemma {:induction false} FireAllOthers<M>(s: State<M>, firing: seq<Timer>, f: FutureId)
    requires Pending(s, firing) && !s.aborted && f < |s.futures|
    requires forall i :: 0 <= i < |firing| ==> firing[i].promise != f
    ensures f < |FireAll(s, firing).futures| && FireAll(s, firing).futures[f] == s.futures[f]
    decreases |firing|
  {
    if firing != [] {
      FireAllUnfolds(s, firing);
      OneFiredWakes(s, firing[0]);
      PendingRest(s, firing);
      hide OneFired, FireAll, Tasks, Pending, Waiting;
      FireAllOthers(OneFired(s, firing[0]), firing[1..], f);
    }
  }

  lemma {:induction false} FireAllReadies<M>(s: State<M>, firing: seq<Timer>, i: nat)
    requires Pending(s, firing) && !s.aborted && i < |firing|
    ensures firing[i].promise < |FireAll(s, firing).futures| && FireAll(s, firing).futures[firing[i].promise].ready
    decreases |firing|
  {
    FireAllUnfolds(s, firing);
    OneFiredWakes(s, firing[0]);
    PendingRest(s, firing);
    hide OneFired, FireAll, Tasks, Waiting;
    if i == 0 {
      FireAllOthers(OneFired(s, firing[0]), firing[1..], firing[0].promise);
    } else {
      FireAllReadies(OneFired(s, firing[0]), firing[1..], i - 1);
    }
  }

  /** Firing one timer after the other makes their promises ready and no others, and wakes exactly their
      waiters, in order. */
  lemma FireAllWakes<M>(s: State<M>, firing: seq<Timer>)
    requires Pending(s, firing) && !s.aborted
    ensures var s' := FireAll(s, firing);
            && !s'.aborted && |s'.futures| == |s.futures| && s'.frames == s.frames
            && Tasks(s'.ready) == Tasks(s.ready) + Waiting(s, firing)
            && (forall i :: 0 <= i < |firing| ==> s'.futures[firing[i].promise].ready)
            && (forall f :: 0 <= f < |s.futures| && (forall i :: 0 <= i < |firing| ==> firing[i].promise != f) ==>
                  s'.futures[f] == s.futures[f])
  {
    FireAllQueues(s, firing);
    hide FireAll, Tasks, Waiting;
    forall i | 0 <= i < |firing| ensures FireAll(s, firing).futures[firing[i].promise].ready {
      FireAllReadies(s, firing, i);
    }
    forall f | 0 <= f < |s.futures| && (forall i :: 0 <= i < |firing| ==> firing[i].promise != f)
      ensures FireAll(s, firing).futures[f] == s.futures[f]
    {
      FireAllOthers(s, firing, f);
    }
  }

  lemma DuePending<M>(s: State<M>, due: seq<Timer>)
    requires TimersOk(s, []) && ArmAscending(due) && forall x :: x in due ==> x in s.timers
    ensures Pending(s, due)
  {
    assert s.timers + [] == s.timers;
    assert forall i :: 0 <= i < |due| ==> due[i] in due;
  }

  /** When the clock advances, exactly the waiters of the earliest timers join the queue, in arm order. */
  lemma FireWakes<M>(s: State<M>)
    requires Inv(s, None) && s.timers != [] && !s.aborted
    ensures var due := DueAt(s.timers, MinDue(s.timers));
            && Pending(s, due)
            && Tasks(Fire(s).ready) == Tasks(s.ready) + Waiting(s, due)
            && Fire(s).frames == s.frames && |Fire(s).futures| == |s.futures|
            && (forall i :: 0 <= i < |due| ==> Fire(s).futures[due[i].promise].ready)
  {
    EarliestPending(s);
    var t := MinDue(s.timers);
    var due := DueAt(s.timers, t);
    hide Inv, DueAt, NotDueAt, FireAll, Pending, Waiting, Tasks;
    var s1 := s.(vtime := if t > s.vtime then t else s.vtime, timers := NotDueAt(s.timers, t));
    SameFuturesWait(s, s1, due);
    FireAllWakes(s1, due);
  }

  lemma EarliestPending<M>(s: State<M>)
    requires Inv(s, None) && s.timers != []
    ensures Pending(s, DueAt(s.timers, MinDue(s.timers)))
  {
    var t := MinDue(s.timers);
    SplitMembers(s.timers, t);
    SplitAscending(s.timers, t);
    hide WakeupsOk, DueAt, NotDueAt, Pending;
    DuePending(s, DueAt(s.timers, t));
  }

  lemma SameFuturesWait<M>(s: State<M>, s': State<M>, timers: seq<Timer>)
    requires Pending(s, timers) && s'.futures == s.futures
    ensures Pending(s', timers) && Waiting(s', timers) == Waiting(s, timers)
  {
    WaitingSame(s, s', timers);
  }

  // ---- one event of a run ------------------------------------------------------------------

  /** An action that the program may also perform outside any coroutine. */
  predicate FromOutside(a: Action) {
    !a.AwaitFuture? && !a.AwaitTask? && !a.Return?
  }

  /** The front of the queue ran a burst of the script and left the state. */
  ghost predicate RanABurst<M(!new)>(s: State<M>, script: Script<M>, s': State<M>)
    requires s.ready != []
  {
    exists states: seq<State<M>> ::
      Burst(states, s.ready[0].task, script.actions) && Popped(s, states[0]) && states[|states| - 1] == s'
  }

  /** What every event of a run does: an action from outside has its effect, a turn runs one burst of the
      coroutine at the front, a tick with an empty queue moves the clock to the earliest timers and queues
      exactly their waiters. */
  lemma StepMoves<M(!new)>(s: State<M>, e: Event<M>)
    requires Inv(s, None) && !s.aborted
    ensures var s' := Step(s, e);
            match e
            case Main(a) => FromOutside(a) ==> Effect(s, 0, a, s')
            case Store(m) => s'.mem == m && s'.ready == s.ready && s'.timers == s.timers && s'.vtime == s.vtime
            case Turn(script) => if s.ready != [] then RanABurst(s, script, s') else s' == s
            case Tick =>
              if s.ready == [] && s.timers != [] then
                var due := DueAt(s.timers, MinDue(s.timers));
                Pending(s, due) && Tasks(s'.ready) == Waiting(s, due) && s'.vtime == MinDue(s.timers)
              else s' == s
  {
    match e
    case Main(a) => if FromOutside(a) { OutsideMoves(s, a); }
    case Store(m) =>
    case Turn(script) =>
      if s.ready != [] {
        var states := ResumeIsABurst(s, script);
        hide Burst, Popped, ResumeWith;
        assert RanABurst(s, script, Step(s, e));
      }
    case Tick =>
      if s.ready == [] && s.timers != [] {
        FireWakes(s);
        FireClock(s);
        assert s.timers + [] == s.timers;
        var i :| 0 <= i < |s.timers| && s.timers[i].due == MinDue(s.timers);
        assert s.timers[i] in s.timers;
        assert Tasks(s.ready) == [];
      }
  }

  lemma OutsideMoves<M>(s: State<M>, a: Action)
    requires WakeupsOk(s, None) && !s.aborted && FromOutside(a)
    ensures Effect(s, 0, a, Perform(s, a))
  {
    hide CreatesTask, CreatesPromise, Spawns, Completes, Arms, FramesOk, WaitersOk, ContinuationsOk, QueueOk;
    if a.NewTask? || a.NewPromise? { CreateMoves(s); }
    else if a.Spawn? { SpawnMoves(s, a.task); }
    else if a.SetValue? { SetValueWakes(s, a.future); }
    else { DelayMoves(s, a.ticks); }
  }
}
