/**
 The laws of the bounded driver loop. `run` is the loop with no deadline; `run_until(d)` refuses to
 advance the clock past `d`.
 */
module RunUntil {
  import opened Runtime
  import opened RunLoop

  datatype Deadline = Never | At(tick: int)

  predicate Beyond(t: int, d: Deadline) {
    d.At? && t > d.tick
  }

  predicate NoLater(d1: Deadline, d2: Deadline) {
    d2.Never? || (d1.At? && d1.tick <= d2.tick)
  }

  /** The loop has nothing left to do within the deadline. */
  predicate Stopped<M>(s: State<M>, d: Deadline) {
    s.aborted || (s.ready == [] && (s.timers == [] || Beyond(MinDue(s.timers), d)))
  }

  function Next<M>(b: Behaviour<M>, s: State<M>, d: Deadline): State<M> {
    if Stopped(s, d) then s
    else if s.ready != [] then Resume(b, s)
    else Fire(s)
  }

  function Iterate<M>(b: Behaviour<M>, s: State<M>, d: Deadline, n: nat): State<M>
    decreases n
  {
    if n == 0 then s else Iterate(b, Next(b, s, d), d, n - 1)
  }

  /** The uncapped loop started in `s` halts, and halts in `t`. */
  ghost predicate RunsTo<M(!new)>(b: Behaviour<M>, s: State<M>, d: Deadline, t: State<M>) {
    exists n: nat :: Iterate(b, s, d, n) == t && Stopped(t, d)
  }

  lemma {:induction false} IterateAdds<M>(b: Behaviour<M>, s: State<M>, d: Deadline, m: nat, n: nat)
    ensures Iterate(b, s, d, m + n) == Iterate(b, Iterate(b, s, d, m), d, n)
    decreases m
  {
    if m > 0 { IterateAdds(b, Next(b, s, d), d, m - 1, n); }
  }

  lemma {:induction false} StoppedStays<M>(b: Behaviour<M>, s: State<M>, d: Deadline, n: nat)
    requires Stopped(s, d)
    ensures Iterate(b, s, d, n) == s
  {
    if n > 0 { StoppedStays(b, s, d, n - 1); }
  }

  /** The interval is closed: a run halts at the deadline exactly when nothing is ready and every pending
      timer is due strictly after it; without a deadline, when nothing is pending at all. */
  lemma StoppedExactly<M>(s: State<M>, tick: int)
    requires !s.aborted
    ensures Stopped(s, At(tick)) <==> s.ready == [] && forall i :: 0 <= i < |s.timers| ==> s.timers[i].due > tick
    ensures Stopped(s, Never) <==> s.ready == [] && s.timers == []
  {}

  lemma IterateUnfolds<M>(b: Behaviour<M>, s: State<M>, d: Deadline, n: nat)
    ensures Iterate(b, s, d, 0) == s && Iterate(b, s, d, 1) == Next(b, s, d)
    ensures n > 0 ==> Iterate(b, s, d, n) == Iterate(b, Next(b, s, d), d, n - 1)
  {}

  /** The clock is never advanced past the deadline. */
  lemma {:induction false} ClockWithinDeadline<M>(b: Behaviour<M>, s: State<M>, tick: int, n: nat)
    requires s.vtime <= tick
    ensures Iterate(b, s, At(tick), n).vtime <= tick
    decreases n
  {
    if n > 0 {
      if !Stopped(s, At(tick)) {
        if s.ready != [] { ResumeClock(s, b(s, s.ready[0].task)); } else { FireClock(s); }
      }
      ClockWithinDeadline(b, Next(b, s, At(tick)), tick, n - 1);
    }
  }

  lemma FireClock<M>(s: State<M>)
    requires s.timers != []
    ensures Fire(s).vtime == if MinDue(s.timers) > s.vtime then MinDue(s.timers) else s.vtime
  {
    var t := MinDue(s.timers);
    FireAllFrame(s.(vtime := if t > s.vtime then t else s.vtime, timers := NotDueAt(s.timers, t)), DueAt(s.timers, t));
  }

  /** The loop is deterministic: it halts in at most one state. */
  lemma RunsToUnique<M>(b: Behaviour<M>, s: State<M>, d: Deadline, m: nat, n: nat)
    requires Stopped(Iterate(b, s, d, m), d) && Stopped(Iterate(b, s, d, n), d)
    ensures Iterate(b, s, d, m) == Iterate(b, s, d, n)
  {
    if m <= n {
      IterateAdds(b, s, d, m, n - m);
      StoppedStays(b, Iterate(b, s, d, m), d, n - m);
    } else {
      IterateAdds(b, s, d, n, m - n);
      StoppedStays(b, Iterate(b, s, d, n), d, m - n);
    }
  }

  /** Up to the earlier deadline the two loops walk the same states. */
  lemma {:induction false} EarlierIsPrefix<M>(b: Behaviour<M>, s: State<M>, d1: Deadline, d2: Deadline, n: nat)
    returns (k: nat)
    requires NoLater(d1, d2)
    ensures k <= n && Iterate(b, s, d2, k) == Iterate(b, s, d1, n)
    ensures Stopped(Iterate(b, s, d1, n), d1) || k == n
    decreases n
  {
    if n == 0 {
      k := 0;
    } else if Stopped(s, d1) {
      StoppedStays(b, s, d1, n);
      k := 0;
    } else {
      k := EarlierIsPrefix(b, Next(b, s, d1), d1, d2, n - 1);
      k := k + 1;
    }
  }

  /** `run_until(d1)` followed by `run_until(d2)` is `run_until(d2)`, for d1 <= d2 and any program: one
      halts exactly when the other does, and in the same state. With `Never` as d2 this is `run`. */
  lemma RunUntilComposes<M(!new)>(b: Behaviour<M>, s: State<M>, d1: Deadline, d2: Deadline, t: State<M>)
    requires NoLater(d1, d2)
    ensures RunsTo(b, s, d2, t) <==> exists s1 :: RunsTo(b, s, d1, s1) && RunsTo(b, s1, d2, t)
  {
    if RunsTo(b, s, d2, t) {
      var n: nat :| Iterate(b, s, d2, n) == t && Stopped(t, d2);
      SplitAtEarlier(b, s, d1, d2, n);
    }
    forall s1 | RunsTo(b, s, d1, s1) && RunsTo(b, s1, d2, t) ensures RunsTo(b, s, d2, t) {
      var n1: nat :| Iterate(b, s, d1, n1) == s1 && Stopped(s1, d1);
      var n2: nat :| Iterate(b, s1, d2, n2) == t && Stopped(t, d2);
      var k := EarlierIsPrefix(b, s, d1, d2, n1);
      IterateAdds(b, s, d2, k, n2);
    }
  }

  /** A halting run to d2 passes through the state where `run_until(d1)` would have halted. */
  lemma {:induction false} SplitAtEarlier<M(!new)>(b: Behaviour<M>, s: State<M>, d1: Deadline, d2: Deadline, n: nat)
    requires NoLater(d1, d2) && Stopped(Iterate(b, s, d2, n), d2)
    ensures exists s1 :: RunsTo(b, s, d1, s1) && RunsTo(b, s1, d2, Iterate(b, s, d2, n))
    decreases n
  {
    var t := Iterate(b, s, d2, n);
    if Stopped(s, d1) {
      assert Iterate(b, s, d1, 0) == s;
      assert RunsTo(b, s, d1, s) && RunsTo(b, s, d2, t);
    } else {
      assert n > 0 by { if n == 0 { LaterStoppedIsStopped(s, d1, d2); } }
      SplitAtEarlier(b, Next(b, s, d2), d1, d2, n - 1);
      var s1 :| RunsTo(b, Next(b, s, d2), d1, s1) && RunsTo(b, s1, d2, t);
      var m: nat :| Iterate(b, Next(b, s, d1), d1, m) == s1 && Stopped(s1, d1);
      assert Iterate(b, s, d1, m + 1) == s1;
      assert RunsTo(b, s, d1, s1);
    }
  }

  lemma LaterStoppedIsStopped<M>(s: State<M>, d1: Deadline, d2: Deadline)
    requires NoLater(d1, d2) && Stopped(s, d2)
    ensures Stopped(s, d1)
  {}

  lemma {:induction false} ResumesGrow<M>(b: Behaviour<M>, s: State<M>, d: Deadline, n: nat)
    ensures s.resumes <= Iterate(b, s, d, n).resumes
    decreases n
  {
    if n > 0 {
      if !Stopped(s, d) {
        if s.ready != [] { ResumeClock(s, b(s, s.ready[0].task)); } else { FireResumes(s); }
      }
      ResumesGrow(b, Next(b, s, d), d, n - 1);
    }
  }

  lemma {:induction false} FireAllFrame<M>(s: State<M>, firing: seq<Timer>)
    ensures FireAll(s, firing).resumes == s.resumes && FireAll(s, firing).timers == s.timers
    ensures FireAll(s, firing).vtime == s.vtime
    decreases |firing|
  {
    if firing != [] && !s.aborted && firing[0].promise < |s.futures| {
      var s1 := Complete(s, firing[0].promise);
      FireAllFrame(s1.(fires := s1.fires + [Fired(firing[0].arm, firing[0].due, s1.vtime)]), firing[1..]);
    }
  }

  lemma FireResumes<M>(s: State<M>)
    requires s.timers != []
    ensures Fire(s).resumes == s.resumes
  {
    var t := MinDue(s.timers);
    FireAllFrame(s.(vtime := if t > s.vtime then t else s.vtime, timers := NotDueAt(s.timers, t)), DueAt(s.timers, t));
  }

  /** Having taken `cap` resumes without being cut short, the loop does not halt with fewer. */
  lemma CapIsExact<M>(b: Behaviour<M>, s: State<M>, d: Deadline, n: nat, m: nat)
    requires Stopped(Iterate(b, s, d, m), d)
    ensures Iterate(b, s, d, n).resumes <= Iterate(b, s, d, m).resumes
  {
    if n <= m {
      IterateAdds(b, s, d, n, m - n);
      ResumesGrow(b, Iterate(b, s, d, n), d, m - n);
    } else {
      IterateAdds(b, s, d, m, n - m);
      StoppedStays(b, Iterate(b, s, d, m), d, n - m);
    }
  }

  /** The driver loop only ever takes steps of a run, so what every run keeps holds of it. */
  lemma {:induction false} LoopIsARun<M>(b: Behaviour<M>, s: State<M>, d: Deadline, n: nat) returns (es: seq<Event<M>>)
    ensures Exec(s, es) == Iterate(b, s, d, n)
    decreases n
  {
    if n == 0 || Stopped(s, d) {
      if n > 0 { StoppedStays(b, s, d, n); }
      es := [];
    } else {
      var rest := LoopIsARun(b, Next(b, s, d), d, n - 1);
      var e := if s.ready != [] then Turn(b(s, s.ready[0].task)) else Tick;
      es := [e] + rest;
      assert es[0] == e && es[1..] == rest;
    }
  }
}
