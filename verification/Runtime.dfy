/**
 The deterministic coroutine runtime as a state machine over values: the FIFO ready queue, the
 shared state behind futures, task frames with their continuations, and virtual timers.

 User code is arbitrary. A coroutine that is resumed runs alone until it suspends, so what it
 does is a function of the state at the moment of the resume: a `Behaviour` returns the whole
 list of actions up to the next suspension. Nothing is assumed about behaviours; an action
 that trips one of the source's assertions aborts the process (`aborted`).
 */
module Runtime {
  import opened Options

  type TaskId = nat
  type FutureId = nat

  /** Where a coroutine frame is suspended; `Running` while it is on the host stack. */
  datatype Point = Initial | AtFuture(future: FutureId) | AtTask(child: TaskId) | Running | Final

  /** `held`: the handle is still owned by a Task object, so nobody has scheduled it yet.
      `bound`: the scheduler sink of the promise is set. */
  datatype Frame = Frame(point: Point, held: bool, bound: bool, continuation: Option<TaskId>)

  /** The shared state of one Future/Promise pair. The promise of a `timerOwned` one lives in a Timer. */
  datatype Shared = Shared(ready: bool, waiter: Option<TaskId>, timerOwned: bool)

  datatype ReadyItem = ReadyItem(task: TaskId, ticket: nat)

  datatype Timer = Timer(due: int, arm: nat, promise: FutureId)

  /** The TimerFire trace event: which timer, its due tick and the virtual time it fired at. */
  datatype Fired = Fired(arm: nat, due: int, at: int)

  datatype State<M> = State(
    ready: seq<ReadyItem>,
    timers: seq<Timer>,
    frames: seq<Frame>,
    futures: seq<Shared>,
    vtime: int,
    enqueued: nat,
    armed: nat,
    resumes: nat,
    fires: seq<Fired>,
    mem: M,
    aborted: bool)

  /** What user code can do with the runtime. `Return` ends the coroutine. */
  datatype Action =
    | NewTask
    | NewPromise
    | Spawn(task: TaskId)
    | SetValue(future: FutureId)
    | Delay(ticks: int)
    | AwaitFuture(future: FutureId)
    | AwaitTask(task: TaskId)
    | Return

  datatype Script<M> = Script(actions: seq<Action>, mem: M)

  type Behaviour<!M> = (State<M>, TaskId) -> Script<M>

  function Boot<M>(mem: M): State<M> {
    State([], [], [], [], 0, 0, 0, 0, [], mem, false)
  }

  // ---- the operations ------------------------------------------------------------------

  function Abort<M>(s: State<M>): State<M> {
    s.(aborted := true)
  }

  function Schedule<M>(s: State<M>, t: TaskId): State<M> {
    s.(ready := s.ready + [ReadyItem(t, s.enqueued)], enqueued := s.enqueued + 1)
  }

  function SetFrame<M>(s: State<M>, t: TaskId, f: Frame): State<M>
    requires t < |s.frames|
  {
    s.(frames := s.frames[t := f])
  }

  function CreateTask<M>(s: State<M>): State<M> {
    s.(frames := s.frames + [Frame(Initial, true, false, None)])
  }

  function CreatePromise<M>(s: State<M>, timerOwned: bool): State<M> {
    s.(futures := s.futures + [Shared(false, None, timerOwned)])
  }

  /** `Scheduler::spawn`: a Task whose handle was already released is ignored. */
  function SpawnTask<M>(s: State<M>, t: TaskId): State<M> {
    if t < |s.frames| && s.frames[t].held then
      Schedule(SetFrame(s, t, s.frames[t].(held := false, bound := true)), t)
    else s
  }

  /** `SharedState::complete`, guarded by its assertion. */
  function Complete<M>(s: State<M>, f: FutureId): State<M>
    requires f < |s.futures|
  {
    var sh := s.futures[f];
    if sh.ready then Abort(s)
    else
      var s1 := s.(futures := s.futures[f := sh.(ready := true, waiter := None)]);
      if sh.waiter.Some? then Schedule(s1, sh.waiter.value) else s1
  }

  /** `Promise::set_value` from user code, which never holds the promise of a timer. */
  function UserSetValue<M>(s: State<M>, f: FutureId): State<M> {
    if f < |s.futures| && !s.futures[f].timerOwned then Complete(s, f) else Abort(s)
  }

  function ArmTimer<M>(s: State<M>, ticks: int): State<M> {
    var due := s.vtime + if ticks > 0 then ticks else 0;
    CreatePromise(s, true).(timers := s.timers + [Timer(due, s.armed, |s.futures|)], armed := s.armed + 1)
  }

  /** `Future::Awaiter`: continue on a ready future, otherwise park as its only waiter. */
  function ParkOnFuture<M>(s: State<M>, c: TaskId, f: FutureId): State<M>
    requires c < |s.frames|
  {
    if f >= |s.futures| then Abort(s)
    else if s.futures[f].ready then s
    else if s.futures[f].waiter.Some? then Abort(s)
    else SetFrame(s, c, s.frames[c].(point := AtFuture(f)))
         .(futures := s.futures[f := s.futures[f].(waiter := Some(c))])
  }

  /** `Task::Awaiter`: an empty handle is ready at once; otherwise wire the continuation, hand the
      parent's sink down and, when there is a sink, schedule the child's first resume. */
  function ParkOnTask<M>(s: State<M>, c: TaskId, k: TaskId): State<M>
    requires c < |s.frames|
  {
    if k < |s.frames| && s.frames[k].held then
      var s1 := SetFrame(s, k, s.frames[k].(held := false, bound := s.frames[c].bound, continuation := Some(c)));
      var s2 := SetFrame(s1, c, s.frames[c].(point := AtTask(k)));
      if s.frames[c].bound then Schedule(s2, k) else s2
    else s
  }

  /** `FinalAwaiter`: mark the frame done and schedule its continuation when a sink is set. */
  function Finish<M>(s: State<M>, c: TaskId): State<M>
    requires c < |s.frames|
  {
    var s1 := SetFrame(s, c, s.frames[c].(point := Final));
    var k := s.frames[c].continuation;
    if k.Some? && s.frames[c].bound then Schedule(s1, k.value) else s1
  }

  /** The actions that never suspend; main code may perform these between runs as well. */
  function Perform<M>(s: State<M>, a: Action): State<M> {
    match a
    case NewTask => CreateTask(s)
    case NewPromise => CreatePromise(s, false)
    case Spawn(t) => SpawnTask(s, t)
    case SetValue(f) => UserSetValue(s, f)
    case Delay(d) => ArmTimer(s, d)
    case _ => s
  }

  /** Run the actions of coroutine `c` until it suspends or the process aborts. Falling off the
      end of the list is the implicit return at the end of a coroutine body. */
  function RunActions<M>(s: State<M>, c: TaskId, actions: seq<Action>): State<M>
    requires c < |s.frames|
    decreases |actions|
  {
    if s.aborted || s.frames[c].point != Running then s
    else if actions == [] || actions[0] == Return then Finish(s, c)
    else
      var a := actions[0];
      var s1 := match a
        case AwaitFuture(f) => ParkOnFuture(s, c, f)
        case AwaitTask(k) => ParkOnTask(s, c, k)
        case _ => Perform(s, a);
      RunActions(s1, c, actions[1..])
  }

  /** One turn of the driver loop: pop the front of the ready queue and resume it. */
  function ResumeWith<M>(s: State<M>, script: Script<M>): State<M>
    requires s.ready != []
  {
    var c := s.ready[0].task;
    if c >= |s.frames| then Abort(s)
    else
      var s1 := SetFrame(s, c, s.frames[c].(point := Running))
                .(ready := s.ready[1..], resumes := s.resumes + 1, mem := script.mem);
      RunActions(s1, c, script.actions)
  }

  function Resume<M>(b: Behaviour<M>, s: State<M>): State<M>
    requires s.ready != []
  {
    ResumeWith(s, b(s, s.ready[0].task))
  }

  // ---- timers --------------------------------------------------------------------------

  /** The declarative reading of "earliest": the least due tick among pending timers. */
  function MinDue(timers: seq<Timer>): (m: int)
    requires timers != []
    ensures exists i :: 0 <= i < |timers| && timers[i].due == m
    ensures forall i :: 0 <= i < |timers| ==> m <= timers[i].due
  {
    if |timers| == 1 then timers[0].due
    else
      var rest := MinDue(timers[1..]);
      assert forall i :: 1 <= i < |timers| ==> timers[i] == timers[1..][i - 1];
      if timers[0].due < rest then timers[0].due else rest
  }

  /** The timers due at tick `t`, in list order. */
  function DueAt(timers: seq<Timer>, t: int): seq<Timer> {
    if timers == [] then []
    else (if timers[0].due == t then [timers[0]] else []) + DueAt(timers[1..], t)
  }

  /** The timers not due at tick `t`, in list order. */
  function NotDueAt(timers: seq<Timer>, t: int): seq<Timer> {
    if timers == [] then []
    else (if timers[0].due == t then [] else [timers[0]]) + NotDueAt(timers[1..], t)
  }

  /** Fulfil the promises of the given timers one after the other. */
  function FireAll<M>(s: State<M>, firing: seq<Timer>): State<M>
    decreases |firing|
  {
    if firing == [] || s.aborted then s
    else if firing[0].promise >= |s.futures| then Abort(s)
    else
      var s1 := Complete(s, firing[0].promise);
      FireAll(s1.(fires := s1.fires + [Fired(firing[0].arm, firing[0].due, s1.vtime)]), firing[1..])
  }

  /** `fire_earliest_timers`, read declaratively: split off every timer with the least due tick,
      in arm order, jump there, keep the rest in order. */
  function Fire<M>(s: State<M>): State<M>
    requires s.timers != []
  {
    var t := MinDue(s.timers);
    FireAll(s.(vtime := if t > s.vtime then t else s.vtime, timers := NotDueAt(s.timers, t)), DueAt(s.timers, t))
  }
}
