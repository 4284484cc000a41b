/**
 The life of a durable query store: write-sets are agreed on and applied, barriers make them durable,
 crashes cut the log and priming repairs it. Runs of the store are lives, and over every life it is
 said exactly when priming shows the full agreed history.
 */
module Durability {
  import opened Options
  import opened OpLog
  import opened Oracle
  import opened Database

  /** `history` is what has been agreed on, `wal` the log on disk with its first `synced` operations past a
      barrier, `tip` the number of prefixes the store knows of. */
  datatype Life = Life(history: seq<WriteSet>, wal: seq<Op>, synced: nat, tip: nat)

  /** A priming may be cut short by a crash that leaves the first `cut` operations of what it applies. */
  datatype Event =
    | Commit(ws: WriteSet, durable: bool)
    | Barrier
    | Crash(survived: nat)
    | PrimeNow
    | PrimeCut(cut: nat)

  const BORN := Life([], [], 0, 0)

  function LiveStep(l: Life, e: Event): Life {
    match e
    case Commit(ws, durable) =>
      var wal := l.wal + OpsOf(ws);
      Life(l.history + [ws], wal, if durable then |wal| else l.synced, l.tip + 1)
    case Barrier => l.(synced := |l.wal|)
    case Crash(n) =>
      if l.synced <= n <= |l.wal| then l.(wal := l.wal[..n], synced := n, tip := if n == 0 then 0 else 1) else l
    case PrimeNow =>
      if l.tip >= |l.history| then l
      else
        var wal := l.wal + Flat(Batches(l.history)[l.tip..]);
        l.(wal := wal, synced := |wal|, tip := |l.history|)
    case PrimeCut(k) =>
      if l.tip >= |l.history| || k > |Flat(Batches(l.history)[l.tip..])| then l
      else
        var wal := l.wal + Flat(Batches(l.history)[l.tip..])[..k];
        l.(wal := wal, synced := |wal|, tip := if wal == [] then 0 else 1)
  }

  function Lives(es: seq<Event>): Life {
    if es == [] then BORN else LiveStep(Lives(es[..|es| - 1]), es[|es| - 1])
  }

  lemma LivesSnoc(es: seq<Event>, e: Event)
    ensures Lives(es + [e]) == LiveStep(Lives(es), e)
  {
    assert (es + [e])[..|es|] == es;
  }

  // ---- what every life keeps ---------------------------------------------------------------

  ghost predicate LifeOk(l: Life) {
    && l.synced <= |l.wal|
    && l.tip <= |l.history|
    && (l.tip == 0 ==> l.wal == [])
    && (l.wal != [] ==> Remains(l.wal, l.history))
  }

  lemma CommitKeeps(wal: seq<Op>, history: seq<WriteSet>, ws: WriteSet)
    requires if history == [] then wal == [] else wal == [] || Remains(wal, history)
    ensures Remains(wal + OpsOf(ws), history + [ws])
  {
    if history == [] {
      FirstCommit(ws);
      assert wal + OpsOf(ws) == OpsOf(ws) && history + [ws] == [ws];
    } else {
      LaterCommit(wal, history, ws);
    }
  }

  lemma FirstCommit(ws: WriteSet)
    ensures Remains(OpsOf(ws), [ws])
  {
    assert forall i :: 0 <= i < |ws| ==> InPlace(OpsOf(ws), [ws], i);
  }

  lemma LaterCommit(wal: seq<Op>, history: seq<WriteSet>, ws: WriteSet)
    requires history != [] && (wal == [] || Remains(wal, history))
    ensures Remains(wal + OpsOf(ws), history + [ws])
  {
    var h', wal' := history + [ws], wal + OpsOf(ws);
    hide Flat, Batches, OpsOf, EffectOn, Rewritten;
    forall i | 0 <= i < |wal'| ensures InPlace(wal', h', i) || Rewritten(h', wal'[i].key) {
      if i < |wal| {
        assert h'[0] == history[0] && wal'[i] == wal[i];
        assert InPlace(wal, history, i) ==> InPlace(wal', h', i);
        StillRewritten(history, ws, wal[i].key);
      } else {
        NewlyWritten(history, ws, i - |wal|);
      }
    }
  }

  lemma StillRewritten(history: seq<WriteSet>, ws: WriteSet, k: Key)
    requires history != []
    ensures Rewritten(history, k) ==> Rewritten(history + [ws], k)
  {
    BatchesPush(history, ws);
    EffectConcat(Flat(Batches(history)[1..]), OpsOf(ws), k);
    hide Flat, Batches, OpsOf, EffectOn;
  }

  lemma NewlyWritten(history: seq<WriteSet>, ws: WriteSet, i: nat)
    requires history != [] && i < |ws|
    ensures Rewritten(history + [ws], OpsOf(ws)[i].key)
  {
    var k := OpsOf(ws)[i].key;
    BatchesPush(history, ws);
    EffectConcat(Flat(Batches(history)[1..]), OpsOf(ws), k);
    EffectOfKeys(OpsOf(ws), k);
    hide Flat, Batches, OpsOf, EffectOn;
  }

  lemma SuffixRewritten(history: seq<WriteSet>, t: nat, i: nat)
    requires 1 <= t <= |history| && i < |Flat(Batches(history)[t..])|
    ensures Rewritten(history, Flat(Batches(history)[t..])[i].key)
  {
    var b := Batches(history);
    var k := Flat(b[t..])[i].key;
    assert b[1..] == b[1..t] + b[t..];
    FlatConcat(b[1..t], b[t..]);
    hide Flat, Batches, EffectOn;
    EffectConcat(Flat(b[1..t]), Flat(b[t..]), k);
    EffectOfKeys(Flat(b[t..]), k);
  }

  lemma PrimeKeeps(l: Life)
    requires LifeOk(l) && l.tip < |l.history|
    ensures Remains(l.wal + Flat(Batches(l.history)[l.tip..]), l.history)
  {
    var b := Batches(l.history);
    var wal' := l.wal + Flat(b[l.tip..]);
    hide Flat, Batches, EffectOn, OpsOf, Rewritten;
    if l.tip == 0 {
      FirstAndRest(l.history);
      assert b[0..] == b;
      assert wal' == OpsOf(l.history[0]) + Flat(b[1..]);
      forall i | 0 <= i < |wal'| ensures InPlace(wal', l.history, i) || Rewritten(l.history, wal'[i].key) {
        if i >= |l.history[0]| { SuffixRewritten(l.history, 1, i - |l.history[0]|); }
      }
    } else {
      forall i | 0 <= i < |wal'| ensures InPlace(wal', l.history, i) || Rewritten(l.history, wal'[i].key) {
        if i >= |l.wal| {
          SuffixRewritten(l.history, l.tip, i - |l.wal|);
        } else {
          assert InPlace(l.wal, l.history, i) ==> InPlace(wal', l.history, i);
        }
      }
    }
  }

  lemma RemainsCut(wal: seq<Op>, history: seq<WriteSet>, n: nat)
    requires Remains(wal, history) && n <= |wal|
    ensures Remains(wal[..n], history)
  {
    hide Rewritten, OpsOf;
    forall i | 0 <= i < n ensures InPlace(wal[..n], history, i) || Rewritten(history, wal[..n][i].key) {
      assert InPlace(wal, history, i) ==> InPlace(wal[..n], history, i);
    }
  }

  lemma StepKeeps(l: Life, e: Event)
    requires LifeOk(l)
    ensures LifeOk(LiveStep(l, e))
  {
    hide Remains, Flat, Batches;
    match e
    case Commit(ws, durable) => CommitKeeps(l.wal, l.history, ws);
    case Barrier =>
    case Crash(n) =>
      if l.synced <= n <= |l.wal| && n > 0 {
        RemainsCut(l.wal, l.history, n);
        RemainsSomething(l.wal, l.history);
      }
    case PrimeNow => if l.tip < |l.history| { PrimeKeeps(l); }
    case PrimeCut(k) =>
      var tail := Flat(Batches(l.history)[if l.tip < |l.history| then l.tip else |l.history|..]);
      if l.tip < |l.history| && k <= |tail| {
        PrimeKeeps(l);
        RemainsCut(l.wal + tail, l.history, |l.wal| + k);
        assert (l.wal + tail)[..|l.wal| + k] == l.wal + tail[..k];
      }
  }

  lemma RemainsSomething(wal: seq<Op>, history: seq<WriteSet>)
    requires Remains(wal, history)
    ensures history != []
  {}

  /** Over every life: the log is made of remains of the agreed history. */
  lemma {:induction false} LivesKeep(es: seq<Event>)
    ensures LifeOk(Lives(es))
    decreases |es|
  {
    if es != [] {
      LivesKeep(es[..|es| - 1]);
      StepKeeps(Lives(es[..|es| - 1]), es[|es| - 1]);
    }
  }

  // ---- recovery and priming ----------------------------------------------------------------

  /** The store shows the full agreed history. */
  ghost predicate InStep(l: Life) {
    l.tip == |l.history| && Fold(l.wal) == Fold(Flat(Batches(l.history)))
  }

  /** Whatever happened before, with any number of crashes and commits at any point: after a crash that
      leaves the first `n` operations, priming shows the full history exactly when nothing was left or
      every operation missing from the first write-set is a delete or is rewritten later. */
  lemma PrimeAfterCrashExactly(es: seq<Event>, n: nat)
    requires Lives(es).synced <= n <= |Lives(es).wal|
    ensures var l := Lives(es); var p := Lives(es + [Crash(n)] + [PrimeNow]);
            && p.history == l.history
            && (n > 0 ==> l.history != [])
            && (InStep(p) <==> n == 0 || FirstRestorable(l.wal[..n], l.history))
  {
    var l := Lives(es);
    LivesKeep(es);
    LivesSnoc(es, Crash(n));
    LivesSnoc(es + [Crash(n)], PrimeNow);
    CrashThenPrime(l, n);
  }

  lemma CrashThenPrime(l: Life, n: nat)
    requires LifeOk(l) && l.synced <= n <= |l.wal|
    ensures var p := LiveStep(LiveStep(l, Crash(n)), PrimeNow);
            && p.history == l.history && (n > 0 ==> l.history != [])
            && (InStep(p) <==> n == 0 || FirstRestorable(l.wal[..n], l.history))
  {
    StepKeeps(l, Crash(n));
    hide InStep, FirstRestorable, Remains;
    PrimeRecovered(LiveStep(l, Crash(n)));
  }

  /** Right after a recovery, priming shows the full history exactly when nothing was left or the first
      write-set is restorable from what was. */
  lemma PrimeRecovered(l: Life)
    requires LifeOk(l) && l.tip == if l.wal == [] then 0 else 1
    ensures l.wal != [] ==> l.history != []
    ensures LiveStep(l, PrimeNow).history == l.history
    ensures InStep(LiveStep(l, PrimeNow)) <==> l.wal == [] || FirstRestorable(l.wal, l.history)
  {
    var b := Batches(l.history);
    hide Fold, FirstRestorable, OpsOf;
    if l.wal == [] {
      NothingLeftRestores(l.history);
      assert b[0..] == b;
    } else {
      RemainsSomething(l.wal, l.history);
      PrimeRestoresExactly(l.wal, l.history);
      if |l.history| == 1 { assert b[1..] == [] && l.wal + [] == l.wal; }
    }
  }

  /** The same holds when the crash interrupts a priming, wherever it cuts. */
  lemma PrimeAfterCutExactly(es: seq<Event>, k: nat)
    requires var l := Lives(es); l.tip < |l.history| && k <= |Flat(Batches(l.history)[l.tip..])|
    ensures var l := Lives(es); var p := Lives(es + [PrimeCut(k)] + [PrimeNow]);
            var wal := l.wal + Flat(Batches(l.history)[l.tip..])[..k];
            && p.history == l.history
            && (InStep(p) <==> wal == [] || FirstRestorable(wal, l.history))
  {
    hide InStep, FirstRestorable, LifeOk, Lives, LiveStep, Flat, Batches;
    LivesKeep(es);
    LivesSnoc(es, PrimeCut(k));
    LivesSnoc(es + [PrimeCut(k)], PrimeNow);
    NotBeyond(Lives(es));
    CutThenPrime(Lives(es), k);
  }

  lemma NotBeyond(l: Life)
    requires LifeOk(l)
    ensures l.tip <= |l.history| && (l.wal != [] ==> l.history != [])
  {}

  lemma CutThenPrime(l: Life, k: nat)
    requires LifeOk(l) && l.tip < |l.history| && k <= |Flat(Batches(l.history)[l.tip..])|
    ensures var p := LiveStep(LiveStep(l, PrimeCut(k)), PrimeNow);
            var wal := l.wal + Flat(Batches(l.history)[l.tip..])[..k];
            && p.history == l.history
            && (InStep(p) <==> wal == [] || FirstRestorable(wal, l.history))
  {
    hide InStep, FirstRestorable, LifeOk, Flat, Batches;
    StepKeeps(l, PrimeCut(k));
    PrimeRecovered(LiveStep(l, PrimeCut(k)));
  }

  /** Interrupting a priming does no harm to a log from which the first write-set could be restored: it
      still can be. */
  lemma InterruptionIsHarmless(l: Life, k: nat)
    requires l.history != [] && FirstRestorable(l.wal, l.history) && l.tip < |l.history|
    requires k <= |Flat(Batches(l.history)[l.tip..])|
    ensures FirstRestorable(LiveStep(l, PrimeCut(k)).wal, l.history)
  {
    var wal' := LiveStep(l, PrimeCut(k)).wal;
    hide Flat, Batches, OpsOf, Rewritten;
    forall i | 0 <= i < |l.history[0]| && InPlace(l.wal, l.history, i) ensures InPlace(wal', l.history, i) {
      assert wal'[i] == l.wal[i];
    }
  }

  /** A first write-set of two writes, cut by a crash before it is durable, is not restored. */
  lemma TornCommitNotRestored(ws: WriteSet)
    requires ws == [([1], [7]), ([2], [8])]
    ensures var p := Lives([Commit(ws, false)] + [Crash(1)] + [PrimeNow]);
            p.history == [ws] && Fold(p.wal) != Fold(Flat(Batches(p.history)))
  {
    assert |ws| == 2;
    SecondWriteMissing(ws);
    hide Lives, Fold, LiveStep, OpsOf, FirstRestorable, Flat, Batches;
    OneUnsynced(ws);
    PrimeAfterCrashExactly([Commit(ws, false)], 1);
    AfterPriming([Commit(ws, false)] + [Crash(1)]);
  }

  lemma OneUnsynced(ws: WriteSet)
    ensures Lives([Commit(ws, false)]) == Life([ws], OpsOf(ws), 0, 1)
  {
    LivesSnoc([], Commit(ws, false));
    hide OpsOf;
    assert [] + [Commit(ws, false)] == [Commit(ws, false)];
    assert Lives([]).history + [ws] == [ws] && Lives([]).wal + OpsOf(ws) == OpsOf(ws);
  }

  lemma AfterPriming(es: seq<Event>)
    ensures var p := Lives(es + [PrimeNow]); p.tip == |p.history|
  {
    LivesKeep(es);
    LivesSnoc(es, PrimeNow);
    NotBeyond(Lives(es));
    hide Lives, LifeOk, Flat, Batches;
  }

  lemma SecondWriteMissing(ws: WriteSet)
    requires ws == [([1], [7]), ([2], [8])]
    ensures !FirstRestorable(OpsOf(ws)[..1], [ws])
  {
    assert OpsOf(ws)[1] == Put([2], [8]);
    assert Batches([ws])[1..] == [];
    assert !InPlace(OpsOf(ws)[..1], [ws], 1) && !Rewritten([ws], [2]);
  }

  /** In particular whenever the whole first write-set survives in its place. */
  lemma CoveringCrashRestores(es: seq<Event>, n: nat)
    requires Lives(es).synced <= n <= |Lives(es).wal|
    requires n == 0 || (Lives(es).history != [] && OpsOf(Lives(es).history[0]) <= Lives(es).wal[..n])
    ensures InStep(Lives(es + [Crash(n)] + [PrimeNow]))
  {
    PrimeAfterCrashExactly(es, n);
    var l := Lives(es);
    hide Lives, InStep, OpsOf, Rewritten;
    if n > 0 {
      assert forall i :: 0 <= i < |l.history[0]| ==> InPlace(l.wal[..n], l.history, i);
    }
  }

  ghost predicate NoCrash(es: seq<Event>) {
    forall i :: 0 <= i < |es| ==> !es[i].Crash?
  }

  lemma SameFoldSameAfter(a: seq<Op>, b: seq<Op>, ops: seq<Op>)
    requires Fold(a) == Fold(b)
    ensures Fold(a + ops) == Fold(b + ops)
  {
    forall k: Key ensures Get(Fold(a + ops), k) == Get(Fold(b + ops), k) {
      FoldConcat(a, ops, k);
      FoldConcat(b, ops, k);
    }
    SameGets(Fold(a + ops), Fold(b + ops));
  }

  lemma StepStaysInStep(l: Life, e: Event)
    requires InStep(l) && !e.Crash?
    ensures InStep(LiveStep(l, e))
  {
    if e.Commit? {
      BatchesPush(l.history, e.ws);
      SameFoldSameAfter(l.wal, Flat(Batches(l.history)), OpsOf(e.ws));
    }
  }

  lemma BornInStep()
    ensures InStep(Lives([]))
  {}

  /** Until the next crash a store in step stays in step. A new store is in step. */
  lemma {:induction false} StaysInStep(es: seq<Event>, more: seq<Event>)
    requires (es == [] || InStep(Lives(es))) && NoCrash(more)
    ensures InStep(Lives(es + more))
    decreases |more|
  {
    hide InStep, Lives, LiveStep;
    if more == [] {
      BornInStep();
      assert es + more == es;
    } else {
      var n := |more| - 1;
      StaysInStep(es, more[..n]);
      assert es + more == es + more[..n] + [more[n]];
      LivesSnoc(es + more[..n], more[n]);
      StepStaysInStep(Lives(es + more[..n]), more[n]);
    }
  }

  /** In any state of any life, also with commits between recovery and priming: priming shows the full
      history exactly when the log and the first `tip` write-sets agree on every key the remaining
      write-sets do not write. */
  lemma PrimeExactly(es: seq<Event>)
    ensures var l := Lives(es); var b := Batches(l.history);
            && l.tip <= |b|
            && (InStep(Lives(es + [PrimeNow])) <==>
                  forall k: Key :: EffectOn(Flat(b[l.tip..]), k) == Untouched ==>
                    Get(Fold(l.wal), k) == Get(Fold(Flat(b[..l.tip])), k))
  {
    LivesKeep(es);
    LivesSnoc(es, PrimeNow);
    PrimeStepExactly(Lives(es));
  }

  lemma PrimeStepExactly(l: Life)
    requires l.tip <= |l.history|
    ensures var b := Batches(l.history);
            InStep(LiveStep(l, PrimeNow)) <==>
              forall k: Key :: EffectOn(Flat(b[l.tip..]), k) == Untouched ==>
                Get(Fold(l.wal), k) == Get(Fold(Flat(b[..l.tip])), k)
  {
    var b := Batches(l.history);
    var done, rest := Flat(b[..l.tip]), Flat(b[l.tip..]);
    assert b == b[..l.tip] + b[l.tip..];
    FlatConcat(b[..l.tip], b[l.tip..]);
    if l.tip == |l.history| { assert b[l.tip..] == [] && l.wal + rest == l.wal; }
    assert LiveStep(l, PrimeNow).wal == l.wal + rest && LiveStep(l, PrimeNow).history == l.history;
    hide Flat, Batches, Fold, EffectOn;
    if k: Key :| EffectOn(rest, k) == Untouched && Get(Fold(l.wal), k) != Get(Fold(done), k) {
      FoldConcat(l.wal, rest, k);
      FoldConcat(done, rest, k);
      assert Get(Fold(l.wal + rest), k) != Get(Fold(done + rest), k);
    } else {
      forall k: Key ensures Get(Fold(l.wal + rest), k) == Get(Fold(done + rest), k) {
        FoldConcat(l.wal, rest, k);
        FoldConcat(done, rest, k);
      }
      SameGets(Fold(l.wal + rest), Fold(done + rest));
    }
  }

  lemma SingleCommit(l: Life, ws: WriteSet, op: Op, durable: bool)
    requires OpsOf(ws) == [op]
    ensures LiveStep(l, Commit(ws, durable))
         == Life(l.history + [ws], l.wal + [op], if durable then |l.wal| + 1 else l.synced, l.tip + 1)
  {}

  /** Two commits of which the second is not yet durable, a crash that loses it, and a third commit. */
  lemma CommitAfterRecovery(a: WriteSet, b: WriteSet, c: WriteSet, oa: Op, ob: Op, oc: Op)
    requires OpsOf(a) == [oa] && OpsOf(b) == [ob] && OpsOf(c) == [oc]
    ensures Lives([Commit(a, true)] + [Commit(b, false)] + [Crash(1)] + [Commit(c, true)])
         == Life([a] + [b] + [c], [oa] + [oc], 2, 2)
  {
    hide OpsOf, Lives, LiveStep;
    var e1, e2, e4 := Commit(a, true), Commit(b, false), Commit(c, true);
    OneCommit(a, oa);
    LivesSnoc([e1], e2);
    SingleCommit(Life([a], [oa], 1, 1), b, ob, false);
    LivesSnoc([e1] + [e2], Crash(1));
    SecondLost(Life([a] + [b], [oa] + [ob], 1, 2), oa, ob);
    LivesSnoc([e1] + [e2] + [Crash(1)], e4);
    SingleCommit(Life([a] + [b], [oa], 1, 1), c, oc, true);
  }

  lemma OneCommit(a: WriteSet, oa: Op)
    requires OpsOf(a) == [oa]
    ensures Lives([Commit(a, true)]) == Life([a], [oa], 1, 1)
  {
    hide OpsOf;
    LivesSnoc([], Commit(a, true));
    assert [] + [Commit(a, true)] == [Commit(a, true)];
    SingleCommit(BORN, a, oa, true);
    assert BORN.history + [a] == [a] && BORN.wal + [oa] == [oa];
  }

  lemma SecondLost(l: Life, oa: Op, ob: Op)
    requires l.wal == [oa] + [ob] && l.synced == 1
    ensures LiveStep(l, Crash(1)) == l.(wal := [oa], synced := 1, tip := 1)
  {
    assert ([oa] + [ob])[..1] == [oa];
  }

  /** Committing between recovery and priming can lose a write-set: here the second of three. */
  lemma CommitBeforePrimeLoses(a: WriteSet, b: WriteSet, c: WriteSet)
    requires a == [([1], [7])] && b == [([2], [8])] && c == [([3], [9])]
    ensures var p := Lives([Commit(a, true)] + [Commit(b, false)] + [Crash(1)] + [Commit(c, true)] + [PrimeNow]);
            && p.history == [a] + [b] + [c]
            && Get(Fold(p.wal), [2]) == None && Get(Fold(Flat(Batches(p.history))), [2]) == Some([8])
  {
    var oa, ob, oc: Op := Put([1], [7]), Put([2], [8]), Put([3], [9]);
    assert OpsOf(a) == [oa] && OpsOf(b) == [ob] && OpsOf(c) == [oc];
    SecondIsLost(a, b, c, oa, ob, oc);
    hide OpsOf, Lives, Flat, Batches, Fold;
    ThirdKeyAlone(oa, oc);
    MiddleKey(oa, ob, oc);
  }

  lemma SecondIsLost(a: WriteSet, b: WriteSet, c: WriteSet, oa: Op, ob: Op, oc: Op)
    requires OpsOf(a) == [oa] && OpsOf(b) == [ob] && OpsOf(c) == [oc]
    ensures var p := Lives([Commit(a, true)] + [Commit(b, false)] + [Crash(1)] + [Commit(c, true)] + [PrimeNow]);
            && p.history == [a] + [b] + [c] && p.wal == [oa] + [oc] + [oc]
            && Flat(Batches(p.history)) == [oa] + [ob] + [oc]
  {
    hide OpsOf, Lives, Flat, Batches;
    CommitAfterRecovery(a, b, c, oa, ob, oc);
    LivesSnoc([Commit(a, true)] + [Commit(b, false)] + [Crash(1)] + [Commit(c, true)], PrimeNow);
    ThreeBatches(a, b, c, oa, ob, oc);
  }

  lemma ThreeBatches(a: WriteSet, b: WriteSet, c: WriteSet, oa: Op, ob: Op, oc: Op)
    requires OpsOf(a) == [oa] && OpsOf(b) == [ob] && OpsOf(c) == [oc]
    ensures var h := [a] + [b] + [c];
            Flat(Batches(h)) == [oa] + [ob] + [oc] && Flat(Batches(h)[2..]) == [oc]
  {
    var h := [a] + [b] + [c];
    hide OpsOf;
    assert Batches(h) == [[oa]] + [[ob]] + [[oc]];
    FlatConcat([[oa]] + [[ob]], [[oc]]);
    FlatConcat([[oa]], [[ob]]);
    FlatOne([oa]);
    FlatOne([ob]);
    FlatOne([oc]);
    assert Batches(h)[2..] == [[oc]];
  }

  lemma FlatOne(ops: seq<Op>)
    ensures Flat([ops]) == ops
  {
    assert [ops][..0] == [] && [] + ops == ops;
  }

  lemma ThirdKeyAlone(oa: Op, oc: Op)
    requires oa == Put([1], [7]) && oc == Put([3], [9])
    ensures Get(Fold([oa] + [oc] + [oc]), [2]) == None
  {
    EffectOfKeys([oa] + [oc] + [oc], [2]);
    FoldEffect([oa] + [oc] + [oc], [2]);
  }

  lemma MiddleKey(oa: Op, ob: Op, oc: Op)
    requires oa == Put([1], [7]) && ob == Put([2], [8]) && oc == Put([3], [9])
    ensures Get(Fold([oa] + [ob] + [oc]), [2]) == Some([8])
  {
    EffectAt([oa] + [ob] + [oc], 1);
    FoldEffect([oa] + [ob] + [oc], [2]);
  }

  // ---- durability --------------------------------------------------------------------------

  /** One step keeps what is synced, wherever a crash cuts. */
  lemma SyncedStep(l: Life, e: Event)
    requires l.synced <= |l.wal|
    ensures var l' := LiveStep(l, e); l.synced <= l'.synced <= |l'.wal| && l.wal[..l.synced] <= l'.wal[..l'.synced]
  {}

  /** Synced operations are never lost: however a life goes on, with crashes at any operation, the synced
      part of the log only grows. */
  lemma {:induction false} SyncedPrefixSurvives(es: seq<Event>, more: seq<Event>)
    ensures var l, l' := Lives(es), Lives(es + more);
            l.synced <= l'.synced <= |l'.wal| && l.synced <= |l.wal| && l.wal[..l.synced] <= l'.wal[..l'.synced]
    decreases |more|
  {
    if more == [] {
      assert es + more == es;
      LivesKeep(es);
    } else {
      var n := |more| - 1;
      assert es + more == es + more[..n] + [more[n]];
      SyncedPrefixSurvives(es, more[..n]);
      LivesSnoc(es + more[..n], more[n]);
      hide Lives, LiveStep;
      SyncedStep(Lives(es + more[..n]), more[n]);
    }
  }

  // ---- the object --------------------------------------------------------------------------

  ghost predicate Mirrors(s: Store, l: Life)
    reads s
  {
    s.wal == l.wal && s.synced == l.synced && |s.batches| == l.tip
  }

  /** One event of a life, performed on the store object. */
  method Perform(s: Store, history: seq<WriteSet>, e: Event, ghost l: Life) returns (agreed: seq<WriteSet>)
    requires s.Valid() && Mirrors(s, l) && l.history == history && l.tip <= |history|
    modifies s, s.engine
    ensures s.Valid() && (s.engine == old(s.engine) || fresh(s.engine))
    ensures Mirrors(s, LiveStep(l, e)) && agreed == LiveStep(l, e).history
  {
    agreed := history;
    match e
    case Commit(ws, durable) =>
      BatchAppended(s.batches, OpsOf(ws));
      if durable { s.Apply(ws); } else { s.ApplyNoSync(ws); }
      agreed := history + [ws];
    case Barrier => s.Sync();
    case Crash(n) => if s.synced <= n <= |s.wal| { s.CrashAndRecover(n); }
    case PrimeNow =>
      FlatConcat(s.batches, Batches(history)[|s.batches|..]);
      s.Prime(history);
    case PrimeCut(k) =>
      var tip := s.Tip();
      if tip < |history| && k <= |Flat(Batches(history)[tip..])| { s.PrimeInterrupted(history, k); }
  }

  /** Runs of the store are lives: log, barrier and tip of the object are those of the life. */
  method Run(es: seq<Event>) returns (s: Store, history: seq<WriteSet>)
    ensures fresh(s) && fresh(s.engine) && s.Valid()
    ensures Mirrors(s, Lives(es)) && history == Lives(es).history
    ensures InStep(Lives(es)) ==> Fold(s.engine.log) == Fold(Flat(Batches(history)))
  {
    hide LiveStep, Represents, Fold, Flat, Batches;
    s := new Store();
    history := [];
    assert es[..0] == [];
    for i := 0 to |es|
      invariant fresh(s) && fresh(s.engine) && s.Valid()
      invariant Mirrors(s, Lives(es[..i])) && history == Lives(es[..i]).history
    {
      LivesKeep(es[..i]);
      LivesSnoc(es[..i], es[i]);
      assert es[..i] + [es[i]] == es[..i + 1];
      history := Perform(s, history, es[i], Lives(es[..i]));
    }
    assert es[..|es|] == es;
  }
}
