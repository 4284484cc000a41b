/**
 What the scripted replicas do to whole sequences of submits, in closed form, and the schedules on which
 every fault is caught: each checker has teeth, and an honest submit goes through.
 */
module ScriptedRuns {
  import opened Observation
  import opened Checkers
  import opened ScriptedNodes
  import opened ScriptedFaults

  // ---- a node under a sequence of submits --------------------------------------------------

  function Entries(vs: seq<string>): (r: seq<LogEntry>)
    ensures |r| == |vs| && forall i :: 0 <= i < |vs| ==> r[i] == LogEntry(1, vs[i])
  {
    seq(|vs|, i requires 0 <= i < |vs| => LogEntry(1, vs[i]))
  }

  function Tagged(vs: seq<string>): (r: seq<string>)
    ensures |r| == |vs| && forall i :: 0 <= i < |vs| ==> r[i] == "ALT:" + vs[i]
  {
    seq(|vs|, i requires 0 <= i < |vs| => "ALT:" + vs[i])
  }

  function AcceptAll(n: Node, vs: seq<string>): Node
    decreases |vs|
  {
    if vs == [] then n else Accept(AcceptAll(n, vs[..|vs| - 1]), vs[|vs| - 1])
  }

  /** The log a leader has after the submits: everything submitted, tagged by the alternative honest leader;
      the truncating leader loses its second to fourth entry when it gets the fourth, the dropping one has its
      first entry replaced. */
  function ScriptedLog(fault: Fault, vs: seq<string>): seq<LogEntry> {
    match fault
    case HonestSingleLeaderAlt => Entries(Tagged(vs))
    case LeaderTruncatesOwnLog => if |vs| < 4 then Entries(vs) else Entries([vs[0]] + vs[4..])
    case DropCommittedEntry => if |vs| < 4 then Entries(vs) else [CLOBBERED] + Entries(vs[1..])
    case HonestSingleLeader => Entries(vs)
    case TwoLeadersSameTerm => Entries(vs)
    case LogMatchingViolation => Entries(vs)
  }

  /** The honest leaders and the dropping one commit all they hold; the others commit nothing. */
  predicate CommitsAll(fault: Fault) {
    fault in {HonestSingleLeader, HonestSingleLeaderAlt, DropCommittedEntry}
  }

  ghost predicate HasRunScript(n: Node, id: nat, fault: Fault, vs: seq<string>) {
    && n.id == id && n.fault == fault && n.scripted == StartNode(id, fault).scripted
    && n.log == ScriptedLog(fault, vs) && n.commit == (if CommitsAll(fault) then |vs| else 0)
    && n.clobbered == (fault == DropCommittedEntry && |vs| >= 4)
    && n.truncated == (fault == LeaderTruncatesOwnLog && |vs| >= 4)
  }

  lemma AcceptRunsScript(n: Node, id: nat, fault: Fault, vs: seq<string>, v: string)
    requires HasRunScript(n, id, fault, vs)
    ensures HasRunScript(Accept(n, v), id, fault, vs + [v])
  {
    LogGrows(fault, vs, v);
    hide ScriptedLog, StartNode;
  }

  /** Every script, over every sequence of submits, in closed form. */
  lemma {:induction false} ScriptInClosedForm(id: nat, fault: Fault, vs: seq<string>)
    ensures var n := AcceptAll(StartNode(id, fault), vs);
            && n.id == id && n.fault == fault && n.scripted == StartNode(id, fault).scripted
            && n.log == ScriptedLog(fault, vs) && n.commit == (if CommitsAll(fault) then |vs| else 0)
            && n.clobbered == (fault == DropCommittedEntry && |vs| >= 4)
            && n.truncated == (fault == LeaderTruncatesOwnLog && |vs| >= 4)
    decreases |vs|
  {
    if vs != [] {
      var init, last := vs[..|vs| - 1], vs[|vs| - 1];
      ScriptInClosedForm(id, fault, init);
      AcceptLast(StartNode(id, fault), vs);
      assert init + [last] == vs;
      hide ScriptedLog, AcceptAll, StartNode, Accept;
      AcceptRunsScript(AcceptAll(StartNode(id, fault), init), id, fault, init, last);
    }
  }

  lemma AcceptLast(n: Node, vs: seq<string>)
    requires vs != []
    ensures AcceptAll(n, vs) == Accept(AcceptAll(n, vs[..|vs| - 1]), vs[|vs| - 1])
  {}

  /** One more submit, on the closed form. */
  lemma LogGrows(fault: Fault, vs: seq<string>, v: string)
    ensures var before := ScriptedLog(fault, vs) + [LogEntry(1, if fault == HonestSingleLeaderAlt then "ALT:" + v else v)];
            ScriptedLog(fault, vs + [v]) ==
              if fault == LeaderTruncatesOwnLog && |vs| == 3 then before[..1]
              else if fault == DropCommittedEntry && |vs| == 3 then before[0 := CLOBBERED]
              else before
    ensures (fault == LeaderTruncatesOwnLog && |vs| < 4) || CommitsAll(fault) ==> |ScriptedLog(fault, vs)| == |vs|
  {
    if |vs| >= 4 {
      assert (vs + [v])[4..] == vs[4..] + [v];
      assert [vs[0]] + (vs + [v])[4..] == [vs[0]] + vs[4..] + [v];
    }
  }

  // ---- a cluster whose node 0 stays up -----------------------------------------------------

  function Invokes(vs: seq<string>): (es: seq<Event>)
    ensures |es| == |vs| && forall i :: 0 <= i < |vs| ==> es[i] == Invoke(vs[i])
  {
    seq(|vs|, i requires 0 <= i < |vs| => Invoke(vs[i]))
  }

  /** Node 0 is up and has been given the submits. */
  ghost predicate LeaderHas(c: Cluster, fault: Fault, vs: seq<string>) {
    0 < |c.nodes| == |c.live| && c.live[0] && c.nodes[0] == AcceptAll(StartNode(0, fault), vs)
  }

  lemma LeaderInvoke(c: Cluster, fault: Fault, vs: seq<string>, v: string)
    requires LeaderHas(c, fault, vs)
    ensures var d := Step(c, Invoke(v)); LeaderHas(d, fault, vs + [v]) && d.run == c.run
  {
    ScriptInClosedForm(0, fault, vs);
    assert BelievedLeader(c.nodes, c.live) == 0;
    assert (vs + [v])[..|vs|] == vs;
  }

  lemma InvokesSnoc(ws: seq<string>)
    requires ws != []
    ensures Invokes(ws) == Invokes(ws[..|ws| - 1]) + [Invoke(ws[|ws| - 1])]
  {}

  lemma NoInvokes(c: Cluster)
    ensures Drive(c, Invokes([])) == c
  {}

  lemma {:induction false} LeaderInvokes(c: Cluster, fault: Fault, vs: seq<string>, ws: seq<string>)
    requires LeaderHas(c, fault, vs)
    ensures var d := Drive(c, Invokes(ws)); LeaderHas(d, fault, vs + ws) && d.run == c.run
    decreases |ws|
  {
    hide LeaderHas, Step, Drive, Invokes;
    if ws == [] {
      assert vs + ws == vs;
      NoInvokes(c);
    } else {
      var n := |ws| - 1;
      LeaderInvokes(c, fault, vs, ws[..n]);
      LeaderInvoke(Drive(c, Invokes(ws[..n])), fault, vs + ws[..n], ws[n]);
      InvokesSnoc(ws);
      DriveSnoc(c, Invokes(ws[..n]), Invoke(ws[n]));
      assert vs + ws[..n] + [ws[n]] == vs + ws;
    }
  }

  /** A snapshot shows what node 0 has committed and holds. */
  lemma LeaderObserve(c: Cluster, fault: Fault, vs: seq<string>)
    requires LeaderHas(c, fault, vs)
    ensures var d := Step(c, Observe);
            && LeaderHas(d, fault, vs) && |d.run.snapshots| == |c.run.snapshots| + 1
            && d.run.snapshots[..|c.run.snapshots|] == c.run.snapshots
            && Shows(d.run.snapshots[|c.run.snapshots|], fault, vs)
  {
    ScriptInClosedForm(0, fault, vs);
  }

  ghost predicate Shows(s: ClusterSnapshot, fault: Fault, vs: seq<string>) {
    && s.nodes != []
    && s.nodes[0] == NodeSnapshot(0, true, Leader, 1, if CommitsAll(fault) then |vs| else 0,
                                  if fault == LogMatchingViolation then StartNode(0, fault).scripted
                                  else ScriptedLog(fault, vs))
  }

  /** Submits, a snapshot, more submits, a second snapshot. */
  function TwoLooks(vs: seq<string>, ws: seq<string>): seq<Event> {
    Invokes(vs) + [Observe] + Invokes(ws) + [Observe]
  }

  lemma {:induction false} DriveConcat(c: Cluster, a: seq<Event>, b: seq<Event>)
    ensures Drive(c, a + b) == Drive(Drive(c, a), b)
    decreases |b|
  {
    if b == [] {
      assert a + b == a;
    } else {
      var n := |b| - 1;
      assert (a + b)[..|a| + n] == a + b[..n];
      DriveConcat(c, a, b[..n]);
    }
  }

  lemma TwoLooksShow(count: nat, fault: Fault, vs: seq<string>, ws: seq<string>)
    requires count > 0
    ensures var r := Drive(StartCluster(count, fault), TwoLooks(vs, ws)).run;
            |r.snapshots| == 2 && Shows(r.snapshots[0], fault, vs) && Shows(r.snapshots[1], fault, vs + ws)
  {
    var s := StartCluster(count, fault);
    assert LeaderHas(s, fault, []) && s.run.snapshots == [] && [] + vs == vs;
    hide Step, LeaderHas, StartCluster, Shows;
    var a := Drive(s, Invokes(vs));
    LeaderInvokes(s, fault, [], vs);
    var b := Step(a, Observe);
    LeaderObserve(a, fault, vs);
    DriveSnoc(s, Invokes(vs), Observe);
    var c := Drive(b, Invokes(ws));
    LeaderInvokes(b, fault, vs, ws);
    DriveConcat(s, Invokes(vs) + [Observe], Invokes(ws));
    LeaderObserve(c, fault, vs + ws);
    DriveSnoc(s, Invokes(vs) + [Observe] + Invokes(ws), Observe);
    var d := Step(c, Observe);
    assert d.run.snapshots[0] == d.run.snapshots[..1][0];
  }

  // ---- only one script has two leaders -----------------------------------------------------

  ghost predicate FollowersBehind(s: ClusterSnapshot) {
    forall i :: 0 < i < |s.nodes| ==> s.nodes[i].role == Follower
  }

  ghost predicate OneLeads(c: Cluster, fault: Fault) {
    && |c.live| == |c.nodes|
    && (forall i :: 0 <= i < |c.nodes| ==> c.nodes[i].id == i && c.nodes[i].fault == fault)
    && forall s :: 0 <= s < |c.run.snapshots| ==> FollowersBehind(c.run.snapshots[s])
  }

  lemma StepOneLeads(c: Cluster, fault: Fault, e: Event)
    requires OneLeads(c, fault) && fault != TwoLeadersSameTerm
    ensures OneLeads(Step(c, e), fault)
  {
    assert FollowersBehind(Snap(c.nodes, c.live));
    hide FollowersBehind, Snap, SeesCommit, ApplyScript;
    if e.Invoke? {
      var li := BelievedLeader(c.nodes, c.live);
      if li < |c.nodes| { AcceptKeepsId(c.nodes[li], e.value); }
    }
  }

  lemma AcceptKeepsId(n: Node, v: string)
    ensures Accept(n, v).id == n.id && Accept(n, v).fault == n.fault
  {}

  lemma {:induction false} DriveOneLeads(count: nat, fault: Fault, es: seq<Event>)
    requires fault != TwoLeadersSameTerm
    ensures OneLeads(Drive(StartCluster(count, fault), es), fault)
    decreases |es|
  {
    if es != [] {
      DriveOneLeads(count, fault, es[..|es| - 1]);
      hide OneLeads, Step, StartCluster;
      StepOneLeads(Drive(StartCluster(count, fault), es[..|es| - 1]), fault, es[|es| - 1]);
    }
  }

  /** No other script, whatever the interleaving, ever breaks election safety. */
  lemma OthersKeepElectionSafety(count: nat, fault: Fault, es: seq<Event>)
    requires fault != TwoLeadersSameTerm
    ensures ElectionSafety(Drive(StartCluster(count, fault), es).run)
  {
    DriveOneLeads(count, fault, es);
    hide Drive, StartCluster;
    var r := Drive(StartCluster(count, fault), es).run;
    forall s, i, j | 0 <= s < |r.snapshots| && 0 <= i < |r.snapshots[s].nodes| && 0 <= j < |r.snapshots[s].nodes| && i != j
      ensures !(r.snapshots[s].nodes[i].role == Leader && r.snapshots[s].nodes[j].role == Leader)
    {
      assert FollowersBehind(r.snapshots[s]);
    }
  }

  // ---- every fault is caught ---------------------------------------------------------------

  /** Two scripted leaders of one term are caught by the first snapshot. */
  lemma TwoLeadersCaught(count: nat)
    requires count >= 2
    ensures !ElectionSafety(Drive(StartCluster(count, TwoLeadersSameTerm), [Observe]).run)
  {
    var c := StartCluster(count, TwoLeadersSameTerm);
    TwoLeadersFlaggedExactly(count, [Observe]);
    FirstLook(c);
    var r := Drive(c, [Observe]).run;
    hide Drive, ElectionSafety;
    assert r.snapshots[0].nodes[0].live && r.snapshots[0].nodes[1].live;
    assert TwoLive(r.snapshots[0].nodes);
  }

  lemma FirstLook(c: Cluster)
    requires |c.live| == |c.nodes| && c.run.snapshots == []
    ensures Drive(c, [Observe]).run.snapshots == [Snap(c.nodes, c.live)]
  {
    assert [Observe][..0] == [];
  }

  /** So are logs that share a term and differ before it. */
  lemma LogMismatchCaught(count: nat)
    requires count >= 2
    ensures !LogMatching(Drive(StartCluster(count, LogMatchingViolation), [Observe]).run)
  {
    var c := StartCluster(count, LogMatchingViolation);
    LogMismatchFlaggedExactly(count, [Observe]);
    FirstLook(c);
    var r := Drive(c, [Observe]).run;
    hide Drive, LogMatching;
    assert FirstTwoLive(r.snapshots[0].nodes);
  }

  /** A leader that shows two or three entries and then gets its fourth is caught truncating. */
  lemma TruncationCaught(count: nat, vs: seq<string>, ws: seq<string>)
    requires count > 0 && 2 <= |vs| < 4 == |vs| + |ws|
    ensures !LeaderAppendOnly(Drive(StartCluster(count, LeaderTruncatesOwnLog), TwoLooks(vs, ws)).run)
  {
    var r := Drive(StartCluster(count, LeaderTruncatesOwnLog), TwoLooks(vs, ws)).run;
    TwoLooksShow(count, LeaderTruncatesOwnLog, vs, ws);
    hide Drive, StartCluster, TwoLooks;
    var p, cur := r.snapshots[0].nodes[0], r.snapshots[1].nodes;
    assert |p.log| == |vs| && |cur[0].log| == 1;
    assert Find(cur, 0) == 0 && !AppendOnly(p, cur);
    assert !AppendOnlyInto(r, 1);
  }

  /** A first entry shown committed and then replaced is caught, unless it was the replacement already. */
  lemma ClobberCaught(count: nat, vs: seq<string>, ws: seq<string>)
    requires count > 0 && 1 <= |vs| < 4 <= |vs| + |ws| && vs[0] != "CLOBBERED"
    ensures !StateMachineSafety(Drive(StartCluster(count, DropCommittedEntry), TwoLooks(vs, ws)).run)
    ensures !Linearizable(Drive(StartCluster(count, DropCommittedEntry), TwoLooks(vs, ws)).run)
  {
    var r := Drive(StartCluster(count, DropCommittedEntry), TwoLooks(vs, ws)).run;
    TwoLooksShow(count, DropCommittedEntry, vs, ws);
    hide Drive, StartCluster, TwoLooks, StateMachineSafety, Linearizable;
    assert CommitsAt(r, 0, 0, 0) && EntryAt(r, 0, 0, 0) == LogEntry(1, vs[0]);
    assert CommitsAt(r, 1, 0, 0) && EntryAt(r, 1, 0, 0) == CLOBBERED;
    SafetyIsSlotAgreement(r);
    TotalOrderHalvesAgree(r);
  }

  /** The two honest leaders disagree from the first entry on, whatever was submitted, and the dropping leader
      disagrees with the honest one exactly once it has dropped an entry. */
  lemma CrossCheckHasTeeth(vs: seq<string>)
    requires vs != []
    ensures !Comparable(ScriptedLog(HonestSingleLeader, vs), ScriptedLog(HonestSingleLeaderAlt, vs))
    ensures !Comparable(ScriptedLog(HonestSingleLeader, vs), ScriptedLog(DropCommittedEntry, vs)) <==>
            |vs| >= 4 && vs[0] != "CLOBBERED"
  {
    var a, b := ScriptedLog(HonestSingleLeader, vs), ScriptedLog(HonestSingleLeaderAlt, vs);
    var d := ScriptedLog(DropCommittedEntry, vs);
    assert |b[0].value| == |a[0].value| + 4;
    if |vs| >= 4 { assert forall k :: 1 <= k < |vs| ==> d[k] == Entries(vs[1..])[k - 1] == a[k]; }
    hide Comparable, ScriptedLog;
    ComparableExactly(a, b);
    ComparableExactly(a, d);
  }

  // ---- an honest submit goes through -------------------------------------------------------

  /** A client that submits to a live honest leader, waits, polls once and responds reports its value
      committed at the end of the leader's log, and when it asked and when it was told; the tagging leader's
      client never sees its own value. */
  lemma HonestSubmitGoesThrough(c: Cluster, v: string, t: nat)
    requires Honest(c) && c.nodes != [] && c.live[0]
    ensures var k := |c.pending|;
            var d := Step(Step(Step(Step(c, Invoke(v)), Wait(t)), Poll(k)), Respond(k));
            && d.run.submits == c.run.submits +
                 [Submit(v, c.now, c.now + t, c.nodes[0].fault == HonestSingleLeader, |LeaderLog(c)| + 1)]
            && |d.run.snapshots| == |c.run.snapshots| + 1
            && |LeaderLog(d)| == |LeaderLog(c)| + 1 && LeaderLog(c) <= LeaderLog(d)
  {
    var k := |c.pending|;
    var c1 := Step(c, Invoke(v));
    var p := Pending(v, c.now, true, false, |LeaderLog(c)| + 1);
    InvokeQueues(c, v);
    SeesOwnSubmit(c, c1, p);
    hide SeesCommit, Honest, Accept, BelievedLeader;
    var c2 := c1.(now := c1.now + t);
    assert Step(c1, Wait(t)) == c2;
    PollOnce(c2, k, p);
    var c3 := Step(c2, Poll(k));
    hide Step;
    RespondOnce(c3, k);
  }

  lemma RespondOnce(c: Cluster, k: nat)
    requires |c.live| == |c.nodes| && k < |c.pending|
    ensures var (p, d) := (c.pending[k], Step(c, Respond(k)));
            && d.run.submits == c.run.submits + [Submit(p.value, p.invoked, c.now, p.committed, p.index)]
            && d.run.snapshots == c.run.snapshots && d.nodes == c.nodes
  {}

  lemma InvokeQueues(c: Cluster, v: string)
    requires Honest(c) && c.nodes != [] && c.live[0]
    ensures var d := Step(c, Invoke(v));
            && d.pending == c.pending + [Pending(v, c.now, true, false, |LeaderLog(c)| + 1)]
            && d.run == c.run && d.now == c.now && |d.live| == |d.nodes| > 0
            && |LeaderLog(d)| == |LeaderLog(c)| + 1 && LeaderLog(c) <= LeaderLog(d)
  {
    assert BelievedLeader(c.nodes, c.live) == 0;
  }

  lemma PollOnce(c: Cluster, k: nat, p: Pending)
    requires |c.live| == |c.nodes| && k < |c.pending| && c.pending[k] == p && p.accepted && !p.committed
    ensures var d := Step(c, Poll(k));
            && |d.pending| == |c.pending| && d.pending[k] == p.(committed := SeesCommit(c.nodes, c.live, p))
            && d.run.submits == c.run.submits && |d.run.snapshots| == |c.run.snapshots| + 1
            && d.nodes == c.nodes && d.live == c.live && d.now == c.now
  {
    hide SeesCommit;
  }

  lemma SeesOwnSubmit(c: Cluster, c1: Cluster, p: Pending)
    requires Honest(c) && c.nodes != [] && c.live[0] && c1 == Step(c, Invoke(p.value))
    requires p.index == |LeaderLog(c)| + 1
    ensures |c1.live| == |c1.nodes|
    ensures SeesCommit(c1.nodes, c1.live, p) <==> c.nodes[0].fault == HonestSingleLeader
  {
    assert BelievedLeader(c.nodes, c.live) == 0;
    var n := c1.nodes[0];
    assert n == Accept(c.nodes[0], p.value) && n.commit == |n.log| == p.index;
    assert |"ALT:" + p.value| == |p.value| + 4;
    forall i | 0 < i < |c1.nodes| ensures c1.nodes[i].commit == 0 { assert c1.nodes[i] == c.nodes[i]; }
    if c.nodes[0].fault == HonestSingleLeader {
      assert LogOf(n)[p.index - 1].value == p.value;
    }
  }
}
