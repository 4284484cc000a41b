/**
 Whole runs of the runtime: what holds in every reachable state, whatever user code does.
 */
module RunLoop {
  import opened Options
  import opened Runtime
  import opened RuntimeInvariant

  // ---- every run, whatever user code does --------------------------------------------------

  /** One step of a run: main code acting between runs, one resume with an arbitrary script, or
      the timers firing once the ready queue is empty. */
  datatype Event<M> = Main(action: Action) | Store(mem: M) | Turn(script: Script<M>) | Tick

  function Step<M>(s: State<M>, e: Event<M>): State<M> {
    if s.aborted then s
    else match e
      case Main(a) => Perform(s, a)
      case Store(m) => s.(mem := m)
      case Turn(script) => if s.ready != [] then ResumeWith(s, script) else s
      case Tick => if s.ready == [] && s.timers != [] then Fire(s) else s
  }

  function Exec<M>(s: State<M>, es: seq<Event<M>>): State<M>
    decreases |es|
  {
    if es == [] then s else Exec(Step(s, es[0]), es[1..])
  }

  lemma StepKeeps<M>(s: State<M>, e: Event<M>)
    requires !s.aborted && Inv(s, None)
    ensures !Step(s, e).aborted ==> Inv(Step(s, e), None)
    ensures s.vtime <= Step(s, e).vtime
  {
    hide WakeupsOk, TimersOk, ResumeWith, Fire;
    match e
    case Main(a) => PerformKeeps(s, a, None); PerformClock(s, a);
    case Store(m) => TimerFieldsKeepWakeups(s, s.(mem := m), None); FrameWriteKeepsTimers(s, s.(mem := m));
    case Turn(script) => if s.ready != [] { ResumeKeeps(s, script); ResumeClock(s, script); }
    case Tick => if s.ready == [] && s.timers != [] { FireKeeps(s); }
  }

  lemma PerformClock<M>(s: State<M>, a: Action)
    ensures Perform(s, a).vtime == s.vtime
  {}

  lemma {:induction false} RunActionsClock<M>(s: State<M>, c: TaskId, actions: seq<Action>)
    requires c < |s.frames|
    ensures RunActions(s, c, actions).vtime == s.vtime
    ensures RunActions(s, c, actions).resumes == s.resumes
    ensures RunActions(s, c, actions).mem == s.mem
    decreases |actions|
  {
    if s.aborted || s.frames[c].point != Running || actions == [] || actions[0] == Return {
    } else {
      var a := actions[0];
      var s1 := match a
        case AwaitFuture(f) => ParkOnFuture(s, c, f)
        case AwaitTask(k) => ParkOnTask(s, c, k)
        case _ => Perform(s, a);
      RunActionsClock(s1, c, actions[1..]);
    }
  }

  lemma ResumeClock<M>(s: State<M>, script: Script<M>)
    requires s.ready != []
    ensures ResumeWith(s, script).vtime == s.vtime
    ensures ResumeWith(s, script).resumes == s.resumes + if s.ready[0].task < |s.frames| then 1 else 0
    ensures s.ready[0].task < |s.frames| ==> ResumeWith(s, script).mem == script.mem
  {
    var c := s.ready[0].task;
    if c < |s.frames| {
      RunActionsClock(SetFrame(s, c, s.frames[c].(point := Running))
                      .(ready := s.ready[1..], resumes := s.resumes + 1, mem := script.mem), c, script.actions);
    }
  }

  lemma {:induction false} ExecKeeps<M>(s: State<M>, es: seq<Event<M>>)
    requires !s.aborted && Inv(s, None)
    ensures !Exec(s, es).aborted ==> Inv(Exec(s, es), None) && s.vtime <= Exec(s, es).vtime
    decreases |es|
  {
    if es != [] {
      StepKeeps(s, es[0]);
      if Step(s, es[0]).aborted {
        AbortedStays(Step(s, es[0]), es[1..]);
      } else {
        ExecKeeps(Step(s, es[0]), es[1..]);
      }
    }
  }

  lemma {:induction false} AbortedStays<M>(s: State<M>, es: seq<Event<M>>)
    requires s.aborted
    ensures Exec(s, es) == s
    decreases |es|
  {
    if es != [] { AbortedStays(s, es[1..]); }
  }

  /** A place where a coroutine can be woken from. */
  datatype Place = InQueue(position: nat) | WaiterOf(future: FutureId) | ContinuationOf(child: TaskId)

  ghost predicate SitsAt<M>(s: State<M>, c: TaskId, p: Place) {
    match p
    case InQueue(i) => i < |s.ready| && s.ready[i].task == c
    case WaiterOf(f) => f < |s.futures| && !s.futures[f].ready && s.futures[f].waiter == Some(c)
    case ContinuationOf(k) => k < |s.frames| && s.frames[k].continuation == Some(c) && s.frames[k].point != Final
  }

  /** Scheduled at least once and not finished. */
  ghost predicate Suspended<M>(s: State<M>, c: TaskId) {
    c < |s.frames| && !s.frames[c].held && s.frames[c].point != Final
  }

  /** The main wake-up theorem: between steps of any run, a coroutine that was handed to the runtime
      and has not finished sits in exactly one place, and any other coroutine sits nowhere. */
  lemma ExactlyOnePlace<M>(mem: M, es: seq<Event<M>>, c: TaskId)
    requires !Exec(Boot(mem), es).aborted
    ensures var s := Exec(Boot(mem), es);
            && (Suspended(s, c) ==> exists p :: SitsAt(s, c, p) && forall q :: SitsAt(s, c, q) ==> q == p)
            && (!Suspended(s, c) ==> forall q :: !SitsAt(s, c, q))
  {
    ExecKeeps(Boot(mem), es);
    hide Exec, WakeupsOk, TimersOk, SitsAt, Suspended;
    OnePlace(Exec(Boot(mem), es), c);
  }

  lemma OnePlace<M>(s: State<M>, c: TaskId)
    requires WakeupsOk(s, None)
    ensures Suspended(s, c) ==> exists p :: SitsAt(s, c, p) && forall q :: SitsAt(s, c, q) ==> q == p
    ensures !Suspended(s, c) ==> forall q :: !SitsAt(s, c, q)
  {
    hide WakeupsOk, SitsAt, PlaceOf, Suspended;
    if Suspended(s, c) {
      var p := PlaceOf(s, c);
      forall q | SitsAt(s, c, q) ensures q == p { PlaceUnique(s, c, q); }
    } else {
      forall q ensures !SitsAt(s, c, q) {
        if SitsAt(s, c, q) { PlacedIsSuspended(s, c, q); }
      }
    }
  }

  ghost function PlaceOf<M>(s: State<M>, c: TaskId): (p: Place)
    requires WakeupsOk(s, None) && Suspended(s, c)
    ensures SitsAt(s, c, p)
  {
    assert FrameOk(s, c);
    if Queued(s, c) then var i :| 0 <= i < |s.ready| && s.ready[i].task == c; InQueue(i)
    else match s.frames[c].point
      case AtFuture(f) => WaiterOf(f)
      case AtTask(k) => ContinuationOf(k)
  }

  lemma PlaceUnique<M>(s: State<M>, c: TaskId, q: Place)
    requires WakeupsOk(s, None) && Suspended(s, c) && SitsAt(s, c, q)
    ensures q == PlaceOf(s, c)
  {
    assert FrameOk(s, c);
  }

  lemma PlacedIsSuspended<M>(s: State<M>, c: TaskId, q: Place)
    requires WakeupsOk(s, None) && SitsAt(s, c, q)
    ensures Suspended(s, c)
  {
    match q
    case InQueue(i) => assert Queued(s, c) && FrameOk(s, c);
    case WaiterOf(f) => assert FrameOk(s, c);
    case ContinuationOf(k) => assert FrameOk(s, k) && FrameOk(s, c);
  }

  ghost predicate ParkedOnUnfinished<M>(s: State<M>, c: TaskId)
    requires c < |s.frames|
  {
    match s.frames[c].point
    case AtFuture(f) =>
      f < |s.futures| && !s.futures[f].ready && s.futures[f].waiter == Some(c)
      && (s.timers == [] ==> !s.futures[f].timerOwned)
    case AtTask(k) => Suspended(s, k) && s.frames[k].continuation == Some(c)
    case _ => false
  }

  /** No lost wake-up: once the queue is empty nobody is parked on something already finished, and
      once the timers are gone as well nobody is parked on a delay. */
  lemma QuiescentParksOnUnfinished<M>(mem: M, es: seq<Event<M>>, c: TaskId)
    requires !Exec(Boot(mem), es).aborted
    requires Exec(Boot(mem), es).ready == []
    requires Suspended(Exec(Boot(mem), es), c)
    ensures ParkedOnUnfinished(Exec(Boot(mem), es), c)
  {
    ExecKeeps(Boot(mem), es);
    EmptyQueueParks(Exec(Boot(mem), es), c);
  }

  lemma EmptyQueueParks<M>(s: State<M>, c: TaskId)
    requires Inv(s, None) && s.ready == [] && Suspended(s, c)
    ensures ParkedOnUnfinished(s, c)
  {
    assert FrameOk(s, c);
    assert s.timers + [] == s.timers;
  }

  /** Timers over whole runs: arm numbers 0..armed-1 split into the pending and the fired, each fired
      one exactly once with the clock at its due tick, and no pending one is overdue. */
  lemma TimersFireExactlyOnceOnTime<M>(mem: M, es: seq<Event<M>>)
    requires !Exec(Boot(mem), es).aborted
    ensures var s := Exec(Boot(mem), es);
            && (forall i :: 0 <= i < |s.fires| ==> s.fires[i].at == s.fires[i].due <= s.vtime)
            && (forall i, j :: 0 <= i < j < |s.fires| ==> s.fires[i].arm != s.fires[j].arm)
            && (forall i, j :: 0 <= i < |s.fires| && 0 <= j < |s.timers| ==> s.fires[i].arm != s.timers[j].arm)
            && (forall j :: 0 <= j < |s.timers| ==> s.vtime <= s.timers[j].due)
            && ArmAscending(s.timers)
            && |s.fires| + |s.timers| == s.armed
  {
    ExecKeeps(Boot(mem), es);
    hide Exec, WakeupsOk;
    TimersOfInvariant(Exec(Boot(mem), es));
  }

  lemma TimersOfInvariant<M>(s: State<M>)
    requires TimersOk(s, [])
    ensures forall i :: 0 <= i < |s.fires| ==> s.fires[i].at == s.fires[i].due <= s.vtime
    ensures forall i, j :: 0 <= i < j < |s.fires| ==> s.fires[i].arm != s.fires[j].arm
    ensures forall i, j :: 0 <= i < |s.fires| && 0 <= j < |s.timers| ==> s.fires[i].arm != s.timers[j].arm
    ensures forall j :: 0 <= j < |s.timers| ==> s.vtime <= s.timers[j].due
    ensures ArmAscending(s.timers)
    ensures |s.fires| + |s.timers| == s.armed
  {
    assert s.timers + [] == s.timers;
    assert forall j :: 0 <= j < |s.timers| ==> s.timers[j] in s.timers;
  }

  /** FIFO over whole runs: the k-th resume takes ticket k, and tickets wait in issue order. */
  lemma TicketsResumeInIssueOrder<M>(mem: M, es: seq<Event<M>>)
    requires !Exec(Boot(mem), es).aborted
    ensures var s := Exec(Boot(mem), es);
            && s.resumes + |s.ready| == s.enqueued
            && forall i :: 0 <= i < |s.ready| ==> s.ready[i].ticket == s.resumes + i
  {
    ExecKeeps(Boot(mem), es);
  }
}
