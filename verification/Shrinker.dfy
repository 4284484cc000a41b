/**
 The fault-schedule shrinker: greedy reduction of a failing configuration, for any deterministic
 system under test.
 */
module Shrinker {

  /** Which property levels fired in a run. */
  datatype ViolationClass = ViolationClass(intFabrication: bool, durFab2: bool, durRejected: bool,
                                           intLostAck: bool, mono: bool, lin: bool)
  {
    /** Does this class contain every level set in `target`? */
    predicate Contains(target: ViolationClass) {
      if target.intFabrication && !intFabrication then false
      else if target.durFab2 && !durFab2 then false
      else if target.durRejected && !durRejected then false
      else if target.intLostAck && !intLostAck then false
      else if target.mono && !mono then false
      else if target.lin && !lin then false
      else true
    }
  }

  datatype Level = IntFab | DurFab | DurRejected | LostAck | Mono | Lin

  predicate Fired(v: ViolationClass, l: Level) {
    match l
    case IntFab => v.intFabrication
    case DurFab => v.durFab2
    case DurRejected => v.durRejected
    case LostAck => v.intLostAck
    case Mono => v.mono
    case Lin => v.lin
  }

  /** `contains` is the subset test on levels. */
  lemma ContainsIsSubset(v: ViolationClass, target: ViolationClass)
    ensures v.Contains(target) <==> forall l: Level :: Fired(target, l) ==> Fired(v, l)
  {
    if forall l: Level :: Fired(target, l) ==> Fired(v, l) {
      assert Fired(target, IntFab) ==> Fired(v, IntFab);
      assert Fired(target, DurFab) ==> Fired(v, DurFab);
      assert Fired(target, DurRejected) ==> Fired(v, DurRejected);
      assert Fired(target, LostAck) ==> Fired(v, LostAck);
      assert Fired(target, Mono) ==> Fired(v, Mono);
      assert Fired(target, Lin) ==> Fired(v, Lin);
    }
  }

  /** The knobs the shrinker turns, in its order: ops_per_client, n_clients, n_keys, n_nodes, crash, partition
      and kill episodes; then the three network and four disk fault probabilities. */
  datatype Config = Config(counts: seq<nat>, probs: seq<real>)

  const FLOORS: seq<nat> := [1, 1, 1, 1, 0, 0, 0]
  const PROBS: nat := 7

  predicate WellFormed(c: Config) {
    |c.counts| == |FLOORS| && |c.probs| == PROBS
  }

  /** The system under test at a fixed seed: a pure function of the configuration. */
  type System = Config -> ViolationClass

  predicate Triggers(run: System, target: ViolationClass, c: Config) {
    run(c).Contains(target)
  }

  /** The candidates the shrinker tries for a count: the floor, the midpoint, one less. */
  predicate Candidate(v: nat, floor: nat, cand: nat) {
    floor <= cand < v && (cand == floor || cand == floor + (v - floor) / 2 || cand == v - 1)
  }

  /** No candidate for knob `i` still triggers. */
  ghost predicate CountStuck(run: System, target: ViolationClass, c: Config, i: nat)
    requires WellFormed(c) && i < |FLOORS|
  {
    forall cand: nat :: Candidate(c.counts[i], FLOORS[i], cand) ==>
      !Triggers(run, target, c.(counts := c.counts[i := cand]))
  }

  ghost predicate ProbStuck(run: System, target: ViolationClass, c: Config, j: nat)
    requires WellFormed(c) && j < PROBS
  {
    c.probs[j] != 0.0 ==> !Triggers(run, target, c.(probs := c.probs[j := 0.0]))
  }

  /** No single-knob move still triggers. */
  ghost predicate Minimal(run: System, target: ViolationClass, c: Config)
    requires WellFormed(c)
  {
    && (forall i :: 0 <= i < |FLOORS| ==> CountStuck(run, target, c, i))
    && (forall j :: 0 <= j < PROBS ==> ProbStuck(run, target, c, j))
  }

  /** `b` is `a` with knobs only turned down, none of them below its floor, and probabilities only zeroed. */
  ghost predicate Reduced(a: Config, b: Config) {
    && WellFormed(a) && WellFormed(b)
    && (forall i :: 0 <= i < |FLOORS| ==> b.counts[i] == a.counts[i] || FLOORS[i] <= b.counts[i] < a.counts[i])
    && (forall j :: 0 <= j < PROBS ==> b.probs[j] == a.probs[j] || b.probs[j] == 0.0)
  }

  lemma ReducedTransitive(a: Config, b: Config, c: Config)
    requires Reduced(a, b) && Reduced(b, c)
    ensures Reduced(a, c)
  {
    forall i | 0 <= i < |FLOORS| ensures c.counts[i] == a.counts[i] || FLOORS[i] <= c.counts[i] < a.counts[i] {
      assert b.counts[i] == a.counts[i] || FLOORS[i] <= b.counts[i] < a.counts[i];
    }
    forall j | 0 <= j < PROBS ensures c.probs[j] == a.probs[j] || c.probs[j] == 0.0 {
      assert b.probs[j] == a.probs[j] || b.probs[j] == 0.0;
    }
  }

  ghost function Total(s: seq<nat>): nat {
    if s == [] then 0 else Total(s[..|s| - 1]) + s[|s| - 1]
  }

  ghost function NonZero(s: seq<real>): nat {
    if s == [] then 0 else NonZero(s[..|s| - 1]) + if s[|s| - 1] != 0.0 then 1 else 0
  }

  /** How much there is to turn down. */
  ghost function Size(c: Config): nat {
    Total(c.counts) + NonZero(c.probs)
  }

  lemma {:induction false} TotalShrinks(a: seq<nat>, b: seq<nat>)
    requires |a| == |b| && forall i :: 0 <= i < |a| ==> b[i] <= a[i]
    ensures Total(b) <= Total(a) && (a != b ==> Total(b) < Total(a))
    decreases |a|
  {
    if a != [] {
      var n := |a| - 1;
      TotalShrinks(a[..n], b[..n]);
      assert a == a[..n] + [a[n]] && b == b[..n] + [b[n]];
    }
  }

  lemma {:induction false} NonZeroShrinks(a: seq<real>, b: seq<real>)
    requires |a| == |b| && forall i :: 0 <= i < |a| ==> b[i] == a[i] || b[i] == 0.0
    ensures NonZero(b) <= NonZero(a) && (a != b ==> NonZero(b) < NonZero(a))
    decreases |a|
  {
    if a != [] {
      var n := |a| - 1;
      NonZeroShrinks(a[..n], b[..n]);
      assert a == a[..n] + [a[n]] && b == b[..n] + [b[n]];
      assert a != b ==> a[..n] != b[..n] || a[n] != b[n];
    }
  }

  /** Every reduction that changes anything makes the configuration smaller. */
  lemma SizeShrinks(a: Config, b: Config)
    requires Reduced(a, b)
    ensures Size(b) <= Size(a) && (a != b ==> Size(b) < Size(a))
  {
    TotalShrinks(a.counts, b.counts);
    NonZeroShrinks(a.probs, b.probs);
  }

  /** `try_set_u64`: keep a smaller value only if the bug survives. */
  method TrySet(run: System, target: ViolationClass, cur: Config, i: nat, cand: nat)
    returns (next: Config, shrank: bool)
    requires WellFormed(cur) && i < |FLOORS|
    ensures shrank <==> FLOORS[i] <= cand < cur.counts[i] && Triggers(run, target, cur.(counts := cur.counts[i := cand]))
    ensures next == if shrank then cur.(counts := cur.counts[i := cand]) else cur
  {
    next, shrank := cur, false;
    if cand >= cur.counts[i] || cand < FLOORS[i] {
      return;
    }
    next := cur.(counts := cur.counts[i := cand]);
    if Triggers(run, target, next) {
      return next, true;
    }
    next := cur;
  }

  /** `reduce_u64`: floor, then midpoint, then decrement, until none of them keeps the bug. */
  method ReduceCount(run: System, target: ViolationClass, start: Config, i: nat) returns (cur: Config, shrank: bool)
    requires WellFormed(start) && i < |FLOORS|
    ensures Reduced(start, cur) && CountStuck(run, target, cur, i)
    ensures shrank ==> Triggers(run, target, cur)
    ensures shrank <==> cur != start
  {
    cur, shrank := start, false;
    var progress := true;
    while progress
      invariant Reduced(start, cur)
      invariant shrank ==> Triggers(run, target, cur)
      invariant if shrank then cur.counts[i] < start.counts[i] else cur == start
      invariant !progress ==> CountStuck(run, target, cur, i)
      decreases cur.counts[i], progress
    {
      progress := false;
      var v := cur.counts[i];
      if v <= FLOORS[i] {
        break;
      }
      var mid := FLOORS[i] + (v - FLOORS[i]) / 2;
      var next, kept := TrySet(run, target, cur, i, FLOORS[i]);
      if !kept {
        next, kept := TrySet(run, target, cur, i, mid);
      }
      if !kept {
        next, kept := TrySet(run, target, cur, i, v - 1);
      }
      if kept {
        StepReduces(start, cur, next, i);
        cur, shrank, progress := next, true, true;
      }
    }
  }

  lemma StepReduces(start: Config, cur: Config, next: Config, i: nat)
    requires Reduced(start, cur) && i < |FLOORS|
    requires |next.counts| == |FLOORS| && next == cur.(counts := cur.counts[i := next.counts[i]])
    requires FLOORS[i] <= next.counts[i] < cur.counts[i]
    ensures Reduced(start, next)
  {
    assert Reduced(cur, next);
    ReducedTransitive(start, cur, next);
  }

  /** `try_zero_prob` and `try_zero_disk`. */
  method TryZero(run: System, target: ViolationClass, cur: Config, j: nat) returns (next: Config, shrank: bool)
    requires WellFormed(cur) && j < PROBS
    ensures Reduced(cur, next) && ProbStuck(run, target, next, j)
    ensures shrank ==> Triggers(run, target, next)
    ensures shrank <==> next != cur
  {
    next, shrank := cur, false;
    if cur.probs[j] == 0.0 {
      return;
    }
    next := cur.(probs := cur.probs[j := 0.0]);
    if Triggers(run, target, next) {
      return next, true;
    }
    next := cur;
  }

  /** One round over all knobs. If nothing shrank, the configuration was already minimal. */
  method Sweep(run: System, target: ViolationClass, start: Config) returns (cur: Config, any: bool)
    requires WellFormed(start)
    ensures Reduced(start, cur)
    ensures any ==> Triggers(run, target, cur) && Size(cur) < Size(start)
    ensures !any ==> cur == start && Minimal(run, target, cur)
  {
    hide Triggers, Size;
    cur, any := start, false;
    for i := 0 to |FLOORS|
      invariant Reduced(start, cur)
      invariant any ==> Triggers(run, target, cur) && Size(cur) < Size(start)
      invariant !any ==> cur == start && forall k :: 0 <= k < i ==> CountStuck(run, target, cur, k)
    {
      var next, shrank := ReduceCount(run, target, cur, i);
      SizeShrinks(cur, next);
      ReducedTransitive(start, cur, next);
      cur, any := next, any || shrank;
    }
    for j := 0 to PROBS
      invariant Reduced(start, cur)
      invariant any ==> Triggers(run, target, cur) && Size(cur) < Size(start)
      invariant !any ==> cur == start && (forall k :: 0 <= k < |FLOORS| ==> CountStuck(run, target, cur, k))
                         && forall k :: 0 <= k < j ==> ProbStuck(run, target, cur, k)
    {
      var next, shrank := TryZero(run, target, cur, j);
      SizeShrinks(cur, next);
      ReducedTransitive(start, cur, next);
      cur, any := next, any || shrank;
    }
  }

  /** What a fixpoint means for a knob above its floor: neither the floor, nor half-way to it, nor one step
      down still fails, and no fault probability can be switched off. */
  lemma FixpointMeans(run: System, target: ViolationClass, c: Config, i: nat, j: nat)
    requires WellFormed(c) && Minimal(run, target, c) && i < |FLOORS| && j < PROBS
    ensures var (v, f) := (c.counts[i], FLOORS[i]);
            v > f ==>
              && !run(c.(counts := c.counts[i := f])).Contains(target)
              && !run(c.(counts := c.counts[i := f + (v - f) / 2])).Contains(target)
              && !run(c.(counts := c.counts[i := v - 1])).Contains(target)
    ensures c.probs[j] != 0.0 ==> !run(c.(probs := c.probs[j := 0.0])).Contains(target)
  {
    assert CountStuck(run, target, c, i) && ProbStuck(run, target, c, j);
    var v, f := c.counts[i], FLOORS[i];
    if v > f {
      assert Candidate(v, f, f) && Candidate(v, f, f + (v - f) / 2) && Candidate(v, f, v - 1);
    }
  }

  /** `shrink_failure`. It always ends. Whatever it returns other than the start fails in the target class,
      so a failing start keeps failing; every knob is at or below its start and none was pushed below its
      floor, so that no run loses its last operation, client, key or node. Unless the 64-round cap cut it
      short, no single-knob move still fails; and the cap is reached only by a start at least 64 turns larger
      than the result. */
  method Shrink(run: System, target: ViolationClass, start: Config)
    returns (after: Config, fixpoint: bool, preserved: bool)
    requires WellFormed(start)
    ensures preserved == Triggers(run, target, after)
    ensures Triggers(run, target, start) || after != start ==> preserved
    ensures Reduced(start, after)
    ensures forall i :: 0 <= i < 4 && start.counts[i] >= 1 ==> after.counts[i] >= 1
    ensures fixpoint ==> Minimal(run, target, after)
    ensures !fixpoint ==> Size(after) + 64 <= Size(start)
  {
    hide Triggers, Minimal, Candidate, Size;
    after, fixpoint := start, false;
    for round := 0 to 64
      invariant Reduced(start, after) && !fixpoint
      invariant Triggers(run, target, start) || after != start ==> Triggers(run, target, after)
      invariant Size(after) + round <= Size(start)
    {
      var next, any := Sweep(run, target, after);
      ReducedTransitive(start, after, next);
      after := next;
      if !any {
        fixpoint := true;
        break;
      }
    }
    preserved := Triggers(run, target, after);
  }
}
