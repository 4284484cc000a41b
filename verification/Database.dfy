/**
 The query store: committed write-sets applied to one engine, read at the four consistency levels,
 and rebuilt after a crash.
 */
module Database {
  import opened Options
  import opened Codec
  import opened OpLog
  import opened Oracle

  // ---- write-sets --------------------------------------------------------------------------

  /** The reserved value that means "delete this key". */
  const SENTINEL: Value := [0xFF]

  /** A write-set is an ordered map: iteration is in ascending key order. */
  type WriteSet = ws: seq<Row> | Ascending(ws) witness []

  function OpOf(r: Row): Op {
    if r.1 == SENTINEL then Del(r.0) else Put(r.0, r.1)
  }

  function OpsOf(ws: seq<Row>): (ops: seq<Op>)
    ensures |ops| == |ws| && forall i :: 0 <= i < |ws| ==> ops[i] == OpOf(ws[i])
  {
    seq(|ws|, i requires 0 <= i < |ws| => OpOf(ws[i]))
  }

  /** The operations of a list of batches, in order. */
  function Flat(batches: seq<seq<Op>>): seq<Op> {
    if batches == [] then [] else Flat(batches[..|batches| - 1]) + batches[|batches| - 1]
  }

  function Batches(history: seq<WriteSet>): (b: seq<seq<Op>>)
    ensures |b| == |history| && forall i :: 0 <= i < |history| ==> b[i] == OpsOf(history[i])
  {
    seq(|history|, i requires 0 <= i < |history| => OpsOf(history[i]))
  }

  lemma {:induction false} FlatConcat(a: seq<seq<Op>>, b: seq<seq<Op>>)
    ensures Flat(a + b) == Flat(a) + Flat(b)
    decreases |b|
  {
    if b == [] {
      assert a + b == a;
    } else {
      assert (a + b)[..|a + b| - 1] == a + b[..|b| - 1];
      FlatConcat(a, b[..|b| - 1]);
    }
  }

  lemma CutInside(start: seq<Op>, done: seq<Op>, rest: seq<Op>, cut: nat)
    requires cut <= |done|
    ensures (start + done)[..|start| + cut] == start + (done + rest)[..cut]
  {}

  lemma BatchAppended(batches: seq<seq<Op>>, b: seq<Op>)
    ensures Flat(batches + [b]) == Flat(batches) + b
  {
    assert (batches + [b])[..|batches|] == batches;
  }

  lemma {:induction false} EffectOfKeys(ops: seq<Op>, k: Key)
    ensures EffectOn(ops, k) == Untouched <==> forall i :: 0 <= i < |ops| ==> ops[i].key != k
    decreases |ops|
  {
    if ops != [] { EffectOfKeys(ops[..|ops| - 1], k); }
  }

  lemma DistinctKeys(ws: WriteSet, i: nat, j: nat)
    requires i < j < |ws|
    ensures ws[i].0 != ws[j].0
  {
    LessAsymmetric(ws[i].0, ws[j].0);
  }

  /** With distinct keys, the operation at any position decides its key. */
  lemma {:induction false} EffectAt(ops: seq<Op>, i: nat)
    requires i < |ops| && forall j :: i < j < |ops| ==> ops[j].key != ops[i].key
    ensures EffectOn(ops, ops[i].key) == Now(if ops[i].Put? then Some(ops[i].value) else None)
    decreases |ops|
  {
    if i < |ops| - 1 {
      assert ops[..|ops| - 1][i] == ops[i];
      EffectAt(ops[..|ops| - 1], i);
    }
  }

  /** What committing a write-set does to every key: a written key takes its value, a deleted one is
      absent, any other is unchanged. */
  lemma CommitMeaning(log: seq<Op>, ws: WriteSet, k: Key)
    ensures (forall i :: 0 <= i < |ws| && ws[i].0 == k ==>
               Get(Fold(log + OpsOf(ws)), k) == if ws[i].1 == SENTINEL then None else Some(ws[i].1))
    ensures (forall i :: 0 <= i < |ws| ==> ws[i].0 != k) ==> Get(Fold(log + OpsOf(ws)), k) == Get(Fold(log), k)
  {
    var ops := OpsOf(ws);
    FoldConcat(log, ops, k);
    EffectOfKeys(ops, k);
    forall i | 0 <= i < |ws| && ws[i].0 == k
      ensures EffectOn(ops, k) == Now(if ws[i].1 == SENTINEL then None else Some(ws[i].1))
    {
      forall j | i < j < |ops| ensures ops[j].key != ops[i].key { DistinctKeys(ws, i, j); }
      EffectAt(ops, i);
    }
  }

  // ---- consistency levels ------------------------------------------------------------------

  datatype Level = Strict | Snapshot(version: nat) | Bounded(maxLag: nat) | ReadYourWrites(session: nat)

  /** `resolve_prefix` for the four levels. */
  function Resolve(level: Level, tip: nat, replicaLag: nat, sessionLastWrite: nat): nat {
    match level
    case Strict => tip
    case Snapshot(version) => if version != 0 && version <= tip then version else tip
    case Bounded(maxLag) =>
      var lag := if replicaLag <= maxLag then replicaLag else maxLag;
      if tip > lag then tip - lag else 0
    case ReadYourWrites(_) => if tip > sessionLastWrite then tip else sessionLastWrite
  }

  /** The committed prefix a query really reads: the resolved one, clamped to the tip. */
  function ReadPrefix(level: Level, tip: nat, replicaLag: nat, sessionLastWrite: nat): (p: nat)
    ensures p <= tip
  {
    var p := Resolve(level, tip, replicaLag, sessionLastWrite);
    if p <= tip then p else tip
  }

  /** Every level's contract on the prefix read, and when the reported prefix is the one read. */
  lemma LevelContracts(level: Level, tip: nat, replicaLag: nat, sessionLastWrite: nat)
    ensures var p := ReadPrefix(level, tip, replicaLag, sessionLastWrite);
      && (level.Strict? ==> p == tip)
      && (level.Snapshot? ==> p == if 0 < level.version <= tip then level.version else tip)
      && (level.Bounded? ==> tip - p <= level.maxLag)
      && (level.Bounded? && replicaLag <= level.maxLag && replicaLag <= tip ==> tip - p == replicaLag)
      && (level.Bounded? && level.maxLag <= replicaLag && level.maxLag <= tip ==> tip - p == level.maxLag)
      && (level.Bounded? && tip <= replicaLag && tip <= level.maxLag ==> p == 0)
      && (level.ReadYourWrites? ==> p == tip && (p >= sessionLastWrite <==> sessionLastWrite <= tip))
      && (Resolve(level, tip, replicaLag, sessionLastWrite) == p <==>
            !(level.ReadYourWrites? && sessionLastWrite > tip))
  {}

  // ---- queries -----------------------------------------------------------------------------

  datatype Step = Point(key: Key) | Span(range: Range)

  function PointsOf(steps: seq<Step>): seq<Key> {
    if steps == [] then []
    else PointsOf(steps[..|steps| - 1]) + match steps[|steps| - 1] case Point(k) => [k] case Span(_) => []
  }

  function SpansOf(steps: seq<Step>): seq<Range> {
    if steps == [] then []
    else SpansOf(steps[..|steps| - 1]) + match steps[|steps| - 1] case Point(_) => [] case Span(r) => [r]
  }

  /** Every step is asked once, and the steps of a kind keep their order: a point or span comes after exactly
      those of its kind that come before it. */
  lemma {:induction false} StepsKeepOrder(steps: seq<Step>, j: nat)
    requires j < |steps|
    ensures |PointsOf(steps)| + |SpansOf(steps)| == |steps|
    ensures var i := |PointsOf(steps[..j])|;
            steps[j].Point? ==> i < |PointsOf(steps)| && PointsOf(steps)[i] == steps[j].key
    ensures var i := |SpansOf(steps[..j])|;
            steps[j].Span? ==> i < |SpansOf(steps)| && SpansOf(steps)[i] == steps[j].range
    decreases |steps|
  {
    var n := |steps| - 1;
    if j < n {
      StepsKeepOrder(steps[..n], j);
      assert steps[..n][..j] == steps[..j];
    } else if n > 0 {
      StepsKeepOrder(steps[..n], 0);
    }
  }

  datatype PointResult = PointResult(key: Key, value: Option<Value>)

  /** All answers come from one map. */
  ghost predicate Answers(m: Live, steps: seq<Step>, points: seq<PointResult>, ranges: seq<seq<Row>>) {
    && |points| == |PointsOf(steps)|
    && |ranges| == |SpansOf(steps)|
    && (forall i :: 0 <= i < |points| ==> points[i] == PointResult(PointsOf(steps)[i], Get(m, PointsOf(steps)[i])))
    && (forall i :: 0 <= i < |ranges| ==> Lists(ranges[i], Restrict(m, SpansOf(steps)[i])))
  }

  /** Each point and each span of a query is answered from the map, in the order asked. */
  lemma EveryStepAnswered(m: Live, steps: seq<Step>, points: seq<PointResult>, ranges: seq<seq<Row>>, j: nat)
    requires Answers(m, steps, points, ranges) && j < |steps|
    ensures |points| + |ranges| == |steps|
    ensures var i := |PointsOf(steps[..j])|;
            steps[j].Point? ==> i < |points| && points[i] == PointResult(steps[j].key, Get(m, steps[j].key))
    ensures var i := |SpansOf(steps[..j])|;
            steps[j].Span? ==> i < |ranges| && Lists(ranges[i], Restrict(m, steps[j].range))
  {
    hide Lists, Restrict, Get, PointsOf, SpansOf;
    StepsKeepOrder(steps, j);
  }

  lemma NothingAsked(m: Live)
    ensures Answers(m, [], [], [])
  {}

  lemma PointAnswered(m: Live, steps: seq<Step>, points: seq<PointResult>, ranges: seq<seq<Row>>, k: Key)
    requires Answers(m, steps, points, ranges)
    ensures Answers(m, steps + [Point(k)], points + [PointResult(k, Get(m, k))], ranges)
  {
    hide Lists, Restrict, Get;
    assert (steps + [Point(k)])[..|steps|] == steps;
  }

  lemma SpanAnswered(m: Live, steps: seq<Step>, points: seq<PointResult>, ranges: seq<seq<Row>>, r: Range, rows: seq<Row>)
    requires Answers(m, steps, points, ranges) && Lists(rows, Restrict(m, r))
    ensures Answers(m, steps + [Span(r)], points, ranges + [rows])
  {
    hide Lists, Restrict, Get;
    assert (steps + [Span(r)])[..|steps|] == steps;
  }

  /** The prefix-to-Seq table: entry p is the engine Seq after the first p batches. */
  ghost predicate Boundaries(snap: seq<nat>, batches: seq<seq<Op>>) {
    |snap| == |batches| + 1 && forall p :: 0 <= p < |snap| ==> snap[p] == |Flat(batches[..p])|
  }

  lemma BoundaryReads(snap: seq<nat>, batches: seq<seq<Op>>, p: nat)
    requires Boundaries(snap, batches) && p < |snap|
    ensures AsOf(Flat(batches), snap[p]) == Fold(Flat(batches[..p]))
  {
    FlatConcat(batches[..p], batches[p..]);
    assert batches == batches[..p] + batches[p..];
    assert Flat(batches)[..snap[p]] == Flat(batches[..p]);
  }

  lemma BoundaryPush(snap: seq<nat>, batches: seq<seq<Op>>, b: seq<Op>)
    requires Boundaries(snap, batches)
    ensures Boundaries(snap + [|Flat(batches) + b|], batches + [b]) && Flat(batches + [b]) == Flat(batches) + b
  {
    var all := batches + [b];
    assert all[..|batches|] == batches;
    forall p | 0 <= p < |snap| ensures all[..p] == batches[..p] {}
    assert all[..|all|] == all;
  }

  lemma BoundarySingle(ops: seq<Op>)
    requires ops != []
    ensures Boundaries([0, |ops|], [ops]) && Flat([ops]) == ops
  {
    assert [ops][..1] == [ops] && [ops][..0] == [];
    assert Flat([ops]) == Flat([ops][..0]) + ops;
    assert [] + ops == ops;
  }

  // ---- the store ---------------------------------------------------------------------------

  /** The store over a durable backing. `wal` is the log on disk, of which the first `synced`
      operations are past a barrier; a crash may cut anywhere behind them. */
  class Store {
    var engine: Engine
    var snap: seq<nat>
    var wal: seq<Op>
    var synced: nat
    ghost var batches: seq<seq<Op>>

    ghost predicate Valid()
      reads this, engine
    {
      && engine.Valid()
      && engine.log == wal == Flat(batches)
      && synced <= |wal|
      && Boundaries(snap, batches)
    }

    constructor ()
      ensures Valid() && fresh(engine) && batches == [] && wal == [] && synced == 0
    {
      engine := new Engine();
      snap, wal, synced, batches := [0], [], 0, [];
    }

    function Tip(): (t: nat)
      requires Valid()
      reads this, engine
      ensures t == |batches|
    {
      |snap| - 1
    }

    /** `snap_for`, clamped to the tip. */
    function SnapFor(prefix: nat): (s: nat)
      requires Valid()
      reads this, engine
      ensures AsOf(wal, s) == Fold(Flat(batches[..if prefix <= |batches| then prefix else |batches|]))
    {
      BoundaryReads(snap, batches, if prefix < |snap| then prefix else |snap| - 1);
      snap[if prefix < |snap| then prefix else |snap| - 1]
    }

    /** The per-key loop: put or del each entry of the write-set, in key order. */
    method CommitEntries(ws: WriteSet)
      requires engine.Valid() && engine.log == wal
      modifies this`wal, engine
      ensures engine.Valid() && engine.log == wal == old(wal) + OpsOf(ws)
    {
      hide Represents;
      var i := 0;
      while i < |ws|
        invariant i <= |ws|
        invariant engine.Valid() && engine.log == wal == old(wal) + OpsOf(ws)[..i]
      {
        var _ := engine.Commit(OpOf(ws[i]));
        assert OpsOf(ws)[..i + 1] == OpsOf(ws)[..i] + [OpOf(ws[i])];
        wal := wal + [OpOf(ws[i])];
        i := i + 1;
      }
      assert OpsOf(ws)[..|ws|] == OpsOf(ws);
    }

    /** `apply_committed_nosync`: the whole write-set becomes one more prefix. */
    method ApplyNoSync(ws: WriteSet)
      requires Valid()
      modifies this, engine
      ensures Valid() && engine == old(engine)
      ensures batches == old(batches) + [OpsOf(ws)] && synced == old(synced)
    {
      hide Represents, OpsOf, Boundaries, Flat;
      CommitEntries(ws);
      BoundaryPush(snap, batches, OpsOf(ws));
      snap := snap + [engine.lastSeq];
      batches := batches + [OpsOf(ws)];
    }

    /** `sync_durable`. */
    method Sync()
      requires Valid()
      modifies this`synced
      ensures Valid() && synced == |wal|
    {
      synced := |wal|;
    }

    /** `apply_committed`: durable before the prefix boundary is recorded. */
    method Apply(ws: WriteSet)
      requires Valid()
      modifies this, engine
      ensures Valid() && engine == old(engine)
      ensures batches == old(batches) + [OpsOf(ws)] && synced == |wal|
    {
      ApplyNoSync(ws);
      Sync();
    }

    /** A crash keeps some prefix of the log that contains everything synced; `recover` replays it into
        a fresh engine and leaves a single boundary at the recovered tip. */
    method CrashAndRecover(survived: nat)
      requires Valid() && synced <= survived <= |wal|
      modifies this
      ensures Valid() && fresh(engine) && synced == survived
      ensures wal == old(wal)[..survived] && old(wal)[..old(synced)] <= wal
      ensures batches == if survived == 0 then [] else [wal]
    {
      hide Represents;
      wal := wal[..survived];
      synced := survived;
      engine := new Engine();
      var i := 0;
      while i < |wal|
        invariant i <= |wal| && fresh(engine) && engine.Valid() && engine.log == wal[..i]
        invariant wal == old(wal)[..survived] && synced == survived
      {
        var _ := engine.Commit(wal[i]);
        i := i + 1;
      }
      snap := [0];
      batches := [];
      if engine.lastSeq != 0 {
        snap := snap + [engine.lastSeq];
        batches := [wal];
        BoundarySingle(wal);
      }
    }

    /** `Database::prime` on a durable backing: only the write-sets beyond the tip are applied. */
    method Prime(history: seq<WriteSet>)
      requires Valid()
      modifies this, engine
      ensures Valid() && engine == old(engine)
      ensures batches == old(batches) + if old(|batches|) <= |history| then Batches(history)[old(|batches|)..] else []
      ensures synced == if old(|batches|) < |history| then |wal| else old(synced)
    {
      hide Represents, Flat;
      var p := Tip();
      ghost var have := p;
      while p < |history|
        invariant have <= p && (p <= |history| || p == have)
        invariant Valid() && engine == old(engine)
        invariant batches == old(batches) + if have <= |history| then Batches(history)[have..p] else []
        invariant synced == if have < p then |wal| else old(synced)
      {
        Apply(history[p]);
        assert Batches(history)[have..p + 1] == Batches(history)[have..p] + [OpsOf(history[p])];
        p := p + 1;
      }
    }

    /** Priming cut short by a crash that leaves the first `cut` operations of what it had to apply, and the
        recovery after it. Whole write-sets before the cut are durable; the one at the cut is torn. */
    method PrimeInterrupted(history: seq<WriteSet>, cut: nat)
      requires Valid() && |batches| <= |history| && cut <= |Flat(Batches(history)[|batches|..])|
      modifies this, engine
      ensures Valid() && fresh(engine) && synced == |wal|
      ensures wal == old(wal) + Flat(Batches(history)[old(|batches|)..])[..cut]
      ensures batches == if wal == [] then [] else [wal]
    {
      hide Represents, Flat, Batches, Boundaries, OpsOf;
      var p := Tip();
      ghost var have, tail := p, Batches(history)[p..];
      ghost var start := wal;
      var target := |wal| + cut;
      assert Batches(history)[have..have] == [];
      assert batches + [] == batches;
      while p < |history| && |wal| < target
        invariant have <= p <= |history| && Valid() && engine == old(engine)
        invariant batches == old(batches) + Batches(history)[have..p]
        invariant synced <= target
      {
        assert Batches(history)[have..p + 1] == Batches(history)[have..p] + [OpsOf(history[p])];
        if |wal| + |history[p]| <= target {
          BatchAppended(batches, OpsOf(history[p]));
          Apply(history[p]);
        } else {
          ApplyNoSync(history[p]);
        }
        p := p + 1;
      }
      FlatConcat(old(batches), Batches(history)[have..p]);
      assert tail == Batches(history)[have..p] + Batches(history)[p..];
      FlatConcat(Batches(history)[have..p], Batches(history)[p..]);
      ghost var done := Flat(Batches(history)[have..p]);
      assert wal == start + done;
      if p == |history| { assert Batches(history)[p..] == [] && tail == Batches(history)[have..p]; }
      assert |wal| >= target;
      CutInside(start, done, Flat(Batches(history)[p..]), cut);
      CrashAndRecover(target);
    }

    /** Restart after a crash: recover what survived, then prime with the agreed history. What is on disk is
        then the surviving log followed by all write-sets, or by all but the first. When the surviving log
        is made of remains of the history, the tip is the full history exactly when nothing survived or
        every operation missing from the first write-set is a delete or is rewritten later. */
    method RecoverAndPrime(survived: nat, history: seq<WriteSet>)
      requires Valid() && synced <= survived <= |wal|
      modifies this
      ensures Valid() && fresh(engine)
      ensures wal == old(wal)[..survived] + PrimeTail(old(wal)[..survived], history)
      ensures survived == 0 || Remains(old(wal)[..survived], history) ==>
                && |batches| == |history|
                && (Fold(engine.log) == Fold(Flat(Batches(history))) <==>
                      survived == 0 || FirstRestorable(old(wal)[..survived], history))
    {
      ghost var kept := wal[..survived];
      if kept == [] {
        NothingLeftRestores(history);
      } else if Remains(kept, history) {
        PrimeRestoresExactly(kept, history);
      }
      CrashAndRecover(survived);
      assert Remains(kept, history) ==> history != [];
      hide Represents, Fold, Remains, FirstRestorable, Boundaries, OpsOf;
      Prime(history);
      ghost var tail := if kept == [] || history == [] then Batches(history) else Batches(history)[1..];
      if kept == [] {
        assert batches == [] + Batches(history)[0..] == tail;
        assert kept + Flat(tail) == Flat(tail);
      } else {
        assert batches == [kept] + tail;
        FlatConcat([kept], tail);
        BoundarySingle(kept);
      }
    }

    /** `run_query`: every point and every range is answered from the fold of one whole-batch prefix, the
        one the level resolves to. */
    method RunQuery(level: Level, steps: seq<Step>, replicaLag: nat, sessionLastWrite: nat)
      returns (served: nat, points: seq<PointResult>, ranges: seq<seq<Row>>)
      requires Valid()
      ensures served == Resolve(level, |batches|, replicaLag, sessionLastWrite)
      ensures var p := ReadPrefix(level, |batches|, replicaLag, sessionLastWrite);
              Answers(Fold(Flat(batches[..p])), steps, points, ranges)
    {
      served := Resolve(level, Tip(), replicaLag, sessionLastWrite);
      var at := SnapFor(served);
      ghost var m := AsOf(wal, at);
      hide Represents, Lists, Boundaries, Fold, Flat, AsOf, Restrict, Answers, ReadPrefix, Resolve;
      points, ranges := [], [];
      NothingAsked(m);
      assert steps[..0] == [];
      for i := 0 to |steps|
        invariant Answers(m, steps[..i], points, ranges)
      {
        assert steps[..i + 1] == steps[..i] + [steps[i]];
        match steps[i] {
          case Point(k) =>
            var v := engine.Lookup(k, at);
            PointAnswered(m, steps[..i], points, ranges, k);
            points := points + [PointResult(k, v)];
          case Span(r) =>
            var rows := engine.Scan(r, at);
            SpanAnswered(m, steps[..i], points, ranges, r, rows);
            ranges := ranges + [rows];
        }
      }
      assert steps[..|steps|] == steps;
    }
  }

  // ---- crash and prime ---------------------------------------------------------------------

  /** The keys that the write-sets from the second on write or delete. */
  ghost predicate Rewritten(history: seq<WriteSet>, k: Key)
    requires history != []
  {
    EffectOn(Flat(Batches(history)[1..]), k) != Untouched
  }

  lemma FirstAndRest(history: seq<WriteSet>)
    requires history != []
    ensures Flat(Batches(history)) == OpsOf(history[0]) + Flat(Batches(history)[1..])
  {
    var b := Batches(history);
    assert b == [b[0]] + b[1..];
    FlatConcat([b[0]], b[1..]);
    assert Flat([b[0]]) == Flat([b[0]][..0]) + b[0];
    assert [] + b[0] == b[0];
  }

  /** What a crash can leave of a history: each operation is that of the first write-set in its place, or
      touches a key that later write-sets write anyway. */
  ghost predicate Remains(wal: seq<Op>, history: seq<WriteSet>) {
    && history != []
    && forall i :: 0 <= i < |wal| ==> InPlace(wal, history, i) || Rewritten(history, wal[i].key)
  }

  /** The log holds operation `i` of the first write-set in its place. */
  predicate InPlace(wal: seq<Op>, history: seq<WriteSet>, i: nat)
    requires history != []
  {
    i < |wal| && i < |history[0]| && wal[i] == OpsOf(history[0])[i]
  }

  /** Every operation missing from the first write-set is a delete or is rewritten later. */
  ghost predicate FirstRestorable(wal: seq<Op>, history: seq<WriteSet>)
    requires history != []
  {
    forall i :: 0 <= i < |history[0]| ==>
      InPlace(wal, history, i) || OpsOf(history[0])[i].Del? || Rewritten(history, OpsOf(history[0])[i].key)
  }

  /** What `prime` appends after a recovery: everything if nothing survived, else all but the first
      write-set. */
  function PrimeTail(wal: seq<Op>, history: seq<WriteSet>): seq<Op> {
    Flat(if wal == [] || history == [] then Batches(history) else Batches(history)[1..])
  }

  lemma NothingLeftRestores(history: seq<WriteSet>)
    ensures [] + PrimeTail([], history) == Flat(Batches(history))
  {}

  lemma FirstKeysDistinct(history: seq<WriteSet>, i: nat, j: nat)
    requires history != [] && i < |history[0]| && j < |history[0]| && i != j
    ensures OpsOf(history[0])[i].key != OpsOf(history[0])[j].key
  {
    if i < j { DistinctKeys(history[0], i, j); } else { DistinctKeys(history[0], j, i); }
  }

  /** A key no later write-set writes: the log has its value exactly when its operation is in place. */
  lemma KeptKey(wal: seq<Op>, history: seq<WriteSet>, i: nat)
    requires Remains(wal, history) && i < |history[0]| && !Rewritten(history, OpsOf(history[0])[i].key)
    ensures var op := OpsOf(history[0])[i];
            && Get(Fold(OpsOf(history[0])), op.key) == (if op.Put? then Some(op.value) else None)
            && Get(Fold(wal), op.key) == if InPlace(wal, history, i) && op.Put? then Some(op.value) else None
  {
    var first := OpsOf(history[0]);
    var k := first[i].key;
    hide Flat, Batches, OpsOf, Fold, EffectOn, Rewritten;
    forall j | 0 <= j < |first| && j != i ensures first[j].key != k { FirstKeysDistinct(history, i, j); }
    EffectAt(first, i);
    FoldEffect(first, k);
    FoldEffect(wal, k);
    forall j | 0 <= j < |wal| && wal[j].key == k ensures j == i && InPlace(wal, history, i) {
      assert InPlace(wal, history, j);
    }
    if InPlace(wal, history, i) { EffectAt(wal, i); } else { EffectOfKeys(wal, k); }
  }

  lemma OtherKey(wal: seq<Op>, history: seq<WriteSet>, k: Key)
    requires Remains(wal, history) && !Rewritten(history, k)
    requires forall i :: 0 <= i < |history[0]| ==> OpsOf(history[0])[i].key != k
    ensures Get(Fold(wal), k) == None && Get(Fold(OpsOf(history[0])), k) == None
  {
    hide Flat, Batches, OpsOf, Fold, EffectOn, Rewritten;
    forall j | 0 <= j < |wal| ensures wal[j].key != k {
      assert InPlace(wal, history, j) ==> wal[j].key == OpsOf(history[0])[j].key;
    }
    EffectOfKeys(wal, k);
    EffectOfKeys(OpsOf(history[0]), k);
    FoldEffect(wal, k);
    FoldEffect(OpsOf(history[0]), k);
  }

  lemma RestoredKey(wal: seq<Op>, history: seq<WriteSet>, k: Key)
    requires Remains(wal, history) && FirstRestorable(wal, history)
    ensures var tail := Flat(Batches(history)[1..]);
            Get(Fold(wal + tail), k) == Get(Fold(OpsOf(history[0]) + tail), k)
  {
    var first, tail := OpsOf(history[0]), Flat(Batches(history)[1..]);
    FoldConcat(wal, tail, k);
    FoldConcat(first, tail, k);
    hide Flat, Batches, OpsOf, Fold, EffectOn;
    if !Rewritten(history, k) {
      if i :| 0 <= i < |first| && first[i].key == k {
        KeptKey(wal, history, i);
      } else {
        OtherKey(wal, history, k);
      }
    }
  }

  lemma MissedKey(wal: seq<Op>, history: seq<WriteSet>, i: nat)
    requires Remains(wal, history) && i < |history[0]| && !InPlace(wal, history, i)
    requires OpsOf(history[0])[i].Put? && !Rewritten(history, OpsOf(history[0])[i].key)
    ensures var tail := Flat(Batches(history)[1..]); Fold(wal + tail) != Fold(OpsOf(history[0]) + tail)
  {
    var first, tail := OpsOf(history[0]), Flat(Batches(history)[1..]);
    var k := first[i].key;
    FoldConcat(wal, tail, k);
    FoldConcat(first, tail, k);
    hide Flat, Batches, OpsOf, Fold, EffectOn;
    KeptKey(wal, history, i);
  }

  /** Over whatever a crash has left of the history, priming restores it exactly when every operation
      missing from the first write-set is a delete or is rewritten later. Re-applying what is already
      there does no harm. */
  lemma PrimeRestoresExactly(wal: seq<Op>, history: seq<WriteSet>)
    requires wal != [] && Remains(wal, history)
    ensures Fold(wal + PrimeTail(wal, history)) == Fold(Flat(Batches(history))) <==> FirstRestorable(wal, history)
  {
    FirstAndRest(history);
    var first, tail := OpsOf(history[0]), Flat(Batches(history)[1..]);
    assert PrimeTail(wal, history) == tail;
    hide Flat, Batches, OpsOf, Fold, Remains;
    if FirstRestorable(wal, history) {
      forall k: Key ensures Get(Fold(wal + tail), k) == Get(Fold(first + tail), k) { RestoredKey(wal, history, k); }
      SameGets(Fold(wal + tail), Fold(first + tail));
    } else {
      var i: nat :| i < |history[0]| && !InPlace(wal, history, i) && !OpsOf(history[0])[i].Del?
                    && !Rewritten(history, OpsOf(history[0])[i].key);
      MissedKey(wal, history, i);
    }
  }

  /** A crash that keeps one of two first writes: the other is not restored by priming. */
  lemma LostWriteNotRestored()
    ensures var history: seq<WriteSet> := [[([1], [7]), ([2], [8])]];
            var wal := Flat(Batches(history))[..1];
            wal == [Put([1], [7])] && Fold(wal + PrimeTail(wal, history)) != Fold(Flat(Batches(history)))
  {
    var ws: seq<Row> := [([1], [7]), ([2], [8])];
    var history: seq<WriteSet> := [ws];
    FirstAndRest(history);
    var wal: seq<Op> := [Put([1], [7])];
    assert OpsOf(ws)[0] == Put([1], [7]) && OpsOf(ws)[1] == Put([2], [8]);
    assert Flat(Batches(history))[..1] == wal;
    assert Batches(history)[1..] == [];
    assert InPlace(wal, history, 0) && !InPlace(wal, history, 1);
    PrimeRestoresExactly(wal, history);
  }

  lemma BatchesPush(history: seq<WriteSet>, ws: WriteSet)
    ensures Batches(history + [ws]) == Batches(history) + [OpsOf(ws)]
    ensures Flat(Batches(history + [ws])) == Flat(Batches(history)) + OpsOf(ws)
    ensures history != [] ==>
      Flat(Batches(history + [ws])[1..]) == Flat(Batches(history)[1..]) + OpsOf(ws)
  {
    var b, b' := Batches(history), Batches(history + [ws]);
    assert b' == b + [OpsOf(ws)];
    assert b'[..|b|] == b;
    if history != [] {
      assert b'[1..] == b[1..] + [OpsOf(ws)];
      assert b'[1..][..|b'[1..]| - 1] == b[1..];
    }
  }
}
