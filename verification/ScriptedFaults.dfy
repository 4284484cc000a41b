/**
 The scripted replicas that break election safety, log matching and leader append-only, driven by any
 interleaving: for each, the snapshots that make its checker reject, exactly.
 */
module ScriptedFaults {
  import opened Observation
  import opened Checkers
  import opened ScriptedNodes

  // ---- two leaders in one term -------------------------------------------------------------

  ghost predicate AllLead(c: Cluster) {
    && |c.live| == |c.nodes|
    && (forall i :: 0 <= i < |c.nodes| ==> c.nodes[i].fault == TwoLeadersSameTerm)
    && forall s :: 0 <= s < |c.run.snapshots| ==> LiveLead(c.run.snapshots[s].nodes)
  }

  /** Every live node leads in term 1. */
  ghost predicate LiveLead(nodes: seq<NodeSnapshot>) {
    forall i :: 0 <= i < |nodes| && nodes[i].live ==> nodes[i].role == Leader && nodes[i].term == 1
  }

  lemma StepAllLead(c: Cluster, e: Event)
    requires AllLead(c)
    ensures AllLead(Step(c, e))
  {
    assert LiveLead(Snap(c.nodes, c.live).nodes);
  }

  lemma {:induction false} DriveAllLead(count: nat, es: seq<Event>)
    ensures AllLead(Drive(StartCluster(count, TwoLeadersSameTerm), es))
    decreases |es|
  {
    if es != [] {
      DriveAllLead(count, es[..|es| - 1]);
      StepAllLead(Drive(StartCluster(count, TwoLeadersSameTerm), es[..|es| - 1]), es[|es| - 1]);
    }
  }

  ghost predicate TwoLive(nodes: seq<NodeSnapshot>) {
    exists i, j :: 0 <= i < j < |nodes| && nodes[i].live && nodes[j].live
  }

  /** The election-safety checker rejects exactly the runs with a snapshot of two live nodes. */
  lemma TwoLeadersFlaggedExactly(count: nat, es: seq<Event>)
    ensures var r := Drive(StartCluster(count, TwoLeadersSameTerm), es).run;
            !ElectionSafety(r) <==> exists s :: 0 <= s < |r.snapshots| && TwoLive(r.snapshots[s].nodes)
  {
    var c := Drive(StartCluster(count, TwoLeadersSameTerm), es);
    DriveAllLead(count, es);
    hide Drive, StartCluster;
    var ss := c.run.snapshots;
    if s :| 0 <= s < |ss| && TwoLive(ss[s].nodes) {
      var i, j :| 0 <= i < j < |ss[s].nodes| && ss[s].nodes[i].live && ss[s].nodes[j].live;
      assert LiveLead(ss[s].nodes);
      assert LeadsAt(ss[s].nodes[i]) && LeadsAt(ss[s].nodes[j]) && ss[s].nodes[i].term == ss[s].nodes[j].term;
    }
  }

  // ---- logs that share a term and differ before it -----------------------------------------

  /** What node `i` presents: two entries of one term for nodes 0 and 1, with different first entries. */
  function Presented(i: nat): seq<LogEntry> {
    StartNode(i, LogMatchingViolation).scripted
  }

  ghost predicate Presents(nodes: seq<NodeSnapshot>, count: nat) {
    |nodes| == count && forall i :: 0 <= i < count ==> nodes[i].log == if nodes[i].live then Presented(i) else []
  }

  ghost predicate AllPresent(c: Cluster) {
    && |c.live| == |c.nodes|
    && (forall i :: 0 <= i < |c.nodes| ==>
          c.nodes[i].fault == LogMatchingViolation && c.nodes[i].scripted == Presented(i))
    && forall s :: 0 <= s < |c.run.snapshots| ==> Presents(c.run.snapshots[s].nodes, |c.nodes|)
  }

  lemma StepAllPresent(c: Cluster, e: Event)
    requires AllPresent(c)
    ensures AllPresent(Step(c, e)) && |Step(c, e).nodes| == |c.nodes|
  {
    assert Presents(Snap(c.nodes, c.live).nodes, |c.nodes|);
    hide Presented, Presents, SeesCommit;
    if e.Invoke? {
      InvokePresents(c, e.value);
    } else {
      assert Step(c, e).nodes == c.nodes && |Step(c, e).live| == |c.live|;
    }
  }

  lemma InvokePresents(c: Cluster, v: string)
    requires AllPresent(c)
    ensures AllPresent(Step(c, Invoke(v))) && |Step(c, Invoke(v)).nodes| == |c.nodes|
  {
    hide Presented, Presents;
  }

  lemma {:induction false} DriveAllPresent(count: nat, es: seq<Event>)
    ensures var c := Drive(StartCluster(count, LogMatchingViolation), es); AllPresent(c) && |c.nodes| == count
    decreases |es|
  {
    if es != [] {
      DriveAllPresent(count, es[..|es| - 1]);
      StepAllPresent(Drive(StartCluster(count, LogMatchingViolation), es[..|es| - 1]), es[|es| - 1]);
    }
  }

  predicate FirstTwoLive(nodes: seq<NodeSnapshot>) {
    |nodes| > 1 && nodes[0].live && nodes[1].live
  }

  lemma PresentedMatch(i: nat, j: nat)
    ensures Matching(Presented(i), Presented(j)) <==> !(i + j == 1)
  {
    if i + j == 1 {
      var a, b := Presented(i), Presented(j);
      assert a[0].term == b[0].term && a[..1][0] != b[..1][0];
    }
  }

  lemma SnapshotMatches(nodes: seq<NodeSnapshot>, count: nat)
    requires Presents(nodes, count)
    ensures (forall i, j :: 0 <= i < |nodes| && 0 <= j < |nodes| ==> Matching(nodes[i].log, nodes[j].log))
            <==> !FirstTwoLive(nodes)
  {
    forall i, j | 0 <= i < |nodes| && 0 <= j < |nodes|
      ensures Matching(nodes[i].log, nodes[j].log) <==> !(i + j == 1 && nodes[i].live && nodes[j].live)
    {
      PresentedMatch(i, j);
    }
    if FirstTwoLive(nodes) { assert !Matching(nodes[0].log, nodes[1].log); }
  }

  /** The log-matching checker rejects exactly the runs with a snapshot in which nodes 0 and 1 are live. */
  lemma LogMismatchFlaggedExactly(count: nat, es: seq<Event>)
    ensures var r := Drive(StartCluster(count, LogMatchingViolation), es).run;
            !LogMatching(r) <==> exists s :: 0 <= s < |r.snapshots| && FirstTwoLive(r.snapshots[s].nodes)
  {
    DriveAllPresent(count, es);
    var ss := Drive(StartCluster(count, LogMatchingViolation), es).run.snapshots;
    hide Drive, StartCluster, FirstTwoLive, Matching, Presented;
    forall s | 0 <= s < |ss|
      ensures (forall i, j :: 0 <= i < |ss[s].nodes| && 0 <= j < |ss[s].nodes| ==>
                 Matching(ss[s].nodes[i].log, ss[s].nodes[j].log)) <==> !FirstTwoLive(ss[s].nodes)
    {
      SnapshotMatches(ss[s].nodes, count);
    }
  }

  // ---- a leader that truncates its own log -------------------------------------------------

  /** Only node 0 leads and only node 0 has a log. */
  ghost predicate OneWriter(nodes: seq<Node>) {
    forall i :: 0 <= i < |nodes| ==>
      nodes[i].id == i && nodes[i].fault == LeaderTruncatesOwnLog && (i > 0 ==> nodes[i].log == [])
  }

  ghost predicate ShowsOneWriter(nodes: seq<NodeSnapshot>, count: nat) {
    && |nodes| == count
    && forall i :: 0 <= i < count ==>
         && nodes[i].id == i
         && (nodes[i].role == Leader <==> i == 0 && nodes[i].live)
         && (nodes[i].live ==> nodes[i].term == 1)
         && (i > 0 || !nodes[i].live ==> nodes[i].log == [])
  }

  predicate Truncated(c: Cluster) {
    c.nodes != [] && c.nodes[0].truncated
  }

  /** From snapshot `lo` on and before `hi` the shown log of the live leader only grows. */
  ghost predicate Grows(ss: seq<ClusterSnapshot>, lo: nat, hi: nat) {
    forall s, t :: lo <= s < t < hi <= |ss| && ShownLive(ss[s]) && ShownLive(ss[t]) ==> Shown(ss[s]) <= Shown(ss[t])
  }

  ghost predicate AllShown(ss: seq<ClusterSnapshot>, lo: nat, log: seq<LogEntry>) {
    forall s :: lo <= s < |ss| ==> Shown(ss[s]) <= log
  }

  ghost predicate WriterShape(c: Cluster) {
    && |c.live| == |c.nodes| && OneWriter(c.nodes) && c.mark <= |c.run.snapshots|
    && forall s :: 0 <= s < |c.run.snapshots| ==> ShowsOneWriter(c.run.snapshots[s].nodes, |c.nodes|)
  }

  /** Before the truncation the shown logs are prefixes of the leader's; after it those shown since are, and
      of those shown before at least the first entry. */
  ghost predicate Truncating(c: Cluster) {
    var ss := c.run.snapshots;
    && WriterShape(c)
    && (!Truncated(c) ==> AllShown(ss, 0, LeaderLog(c)) && Grows(ss, 0, |ss|))
    && (Truncated(c) ==>
          && LeaderLog(c) != []
          && AllShown(ss, c.mark, LeaderLog(c)) && Grows(ss, 0, c.mark) && Grows(ss, c.mark, |ss|)
          && (forall s :: 0 <= s < c.mark && Shown(ss[s]) != [] ==> Shown(ss[s])[0] == LeaderLog(c)[0])
          && (forall s :: c.mark <= s < |ss| && ShownLive(ss[s]) ==> Shown(ss[s]) != []))
  }

  lemma ZeroWrites(nodes: seq<Node>, live: seq<bool>)
    requires |live| == |nodes| && OneWriter(nodes)
    ensures BelievedLeader(nodes, live) == 0 || BelievedLeader(nodes, live) == |nodes|
  {
    var li := BelievedLeader(nodes, live);
    if li < |nodes| { assert RoleOf(nodes[li]) == Leader; }
  }

  lemma ObserveTruncating(c: Cluster)
    requires Truncating(c)
    ensures Truncating(Observed(c))
    ensures Observed(c).run.snapshots == c.run.snapshots + [Snap(c.nodes, c.live)]
    ensures ShownLive(Snap(c.nodes, c.live)) ==> Shown(Snap(c.nodes, c.live)) == LeaderLog(c)
    ensures !ShownLive(Snap(c.nodes, c.live)) ==> Shown(Snap(c.nodes, c.live)) == []
  {
    SnapShows(c);
    hide ShowsOneWriter, OneWriter, Snap, Record;
    HistoryGrows(c, Observed(c), Snap(c.nodes, c.live));
  }

  lemma SnapShows(c: Cluster)
    requires WriterShape(c)
    ensures var snap := Snap(c.nodes, c.live);
            && ShowsOneWriter(snap.nodes, |c.nodes|)
            && Shown(snap) == if ShownLive(snap) then LeaderLog(c) else []
  {
    var snap := Snap(c.nodes, c.live);
    assert c.nodes != [] ==> snap.nodes[0] == Record(c.nodes[0], c.live[0]);
  }

  lemma HistoryGrows(c: Cluster, d: Cluster, snap: ClusterSnapshot)
    requires Truncating(c) && d == c.(run := c.run.(snapshots := c.run.snapshots + [snap]))
    requires ShowsOneWriter(snap.nodes, |c.nodes|) && Shown(snap) == if ShownLive(snap) then LeaderLog(c) else []
    ensures Truncating(d)
  {
    var ss := c.run.snapshots;
    ShapeGrows(c, d, snap);
    assert c.mark <= |ss|;
    hide WriterShape, ShowsOneWriter, Shown, ShownLive, Grows, AllShown;
    if Truncated(c) {
      ShownGrows(ss, snap, c.mark, LeaderLog(c));
      GrowsBefore(ss, snap, c.mark);
    } else {
      ShownGrows(ss, snap, 0, LeaderLog(c));
    }
  }

  lemma ShapeGrows(c: Cluster, d: Cluster, snap: ClusterSnapshot)
    requires WriterShape(c) && d == c.(run := c.run.(snapshots := c.run.snapshots + [snap]))
    requires ShowsOneWriter(snap.nodes, |c.nodes|)
    ensures WriterShape(d)
  {
    hide ShowsOneWriter, OneWriter;
  }

  lemma ShownGrows(ss: seq<ClusterSnapshot>, snap: ClusterSnapshot, lo: nat, log: seq<LogEntry>)
    requires lo <= |ss| && AllShown(ss, lo, log) && Grows(ss, lo, |ss|)
    requires Shown(snap) == if ShownLive(snap) then log else []
    ensures AllShown(ss + [snap], lo, log) && Grows(ss + [snap], lo, |ss + [snap]|)
  {
    hide Shown, ShownLive;
    var tt := ss + [snap];
    forall s, t | lo <= s < t < |tt| && ShownLive(tt[s]) && ShownLive(tt[t]) ensures Shown(tt[s]) <= Shown(tt[t]) {
      assert tt[s] == ss[s];
      if t < |ss| { assert tt[t] == ss[t]; } else { assert tt[t] == snap; }
    }
  }

  lemma GrowsBefore(ss: seq<ClusterSnapshot>, snap: ClusterSnapshot, hi: nat)
    requires hi <= |ss| && Grows(ss, 0, hi)
    ensures Grows(ss + [snap], 0, hi)
  {
    hide Shown, ShownLive;
  }

  /** What an accepted submit does: the leader's log grows by the entry, or is cut back to its first one. */
  lemma InvokeWrites(c: Cluster, v: string)
    requires WriterShape(c)
    ensures var d := Step(c, Invoke(v));
            && WriterShape(d) && d.run == c.run && |d.nodes| == |c.nodes| && (Truncated(c) ==> Truncated(d))
            && (if Truncated(c) == Truncated(d)
                then d.mark == c.mark && (LeaderLog(d) == LeaderLog(c) || LeaderLog(d) == LeaderLog(c) + [LogEntry(1, v)])
                else d.mark == |c.run.snapshots| && |LeaderLog(c)| >= 3 && LeaderLog(d) == LeaderLog(c)[..1])
  {
    ZeroWrites(c.nodes, c.live);
  }

  lemma InvokeTruncating(c: Cluster, v: string)
    requires Truncating(c)
    ensures Truncating(Step(c, Invoke(v)))
  {
    InvokeWrites(c, v);
    var d := Step(c, Invoke(v));
    hide Step, WriterShape;
    assert Truncated(c) == Truncated(d) ==> LeaderLog(c) <= LeaderLog(d);
  }

  lemma StepTruncating(c: Cluster, e: Event)
    requires Truncating(c)
    ensures Truncating(Step(c, e))
  {
    match e
    case Wait(d) =>
    case SetLive(i, up) =>
    case Observe => ObserveTruncating(c);
    case Invoke(v) => InvokeTruncating(c, v);
    case Poll(k) => ObserveTruncating(c);
    case Respond(k) =>
  }

  lemma {:induction false} DriveTruncating(count: nat, es: seq<Event>)
    ensures Truncating(Drive(StartCluster(count, LeaderTruncatesOwnLog), es))
    decreases |es|
  {
    if es != [] {
      DriveTruncating(count, es[..|es| - 1]);
      hide Truncating;
      StepTruncating(Drive(StartCluster(count, LeaderTruncatesOwnLog), es[..|es| - 1]), es[|es| - 1]);
    }
  }

  lemma AppendOnlyOfWriter(prev: seq<NodeSnapshot>, cur: seq<NodeSnapshot>, count: nat)
    requires ShowsOneWriter(prev, count) && ShowsOneWriter(cur, count)
    ensures StepAppendOnly(prev, cur) <==>
            (count > 0 && prev[0].live && cur[0].live ==> prev[0].log <= cur[0].log)
  {
    forall n | 0 <= n < count
      ensures AppendOnly(prev[n], cur) <==> (n == 0 && prev[0].live && cur[0].live ==> prev[0].log <= cur[0].log)
    {
      assert cur[n].id == prev[n].id == n;
      assert Find(cur, n) <= n;
    }
    if count > 0 { assert AppendOnly(prev[0], cur) ==> (prev[0].live && cur[0].live ==> prev[0].log <= cur[0].log); }
  }

  /** Node 0 is live in the last snapshot before the truncation, with at least two entries, and in the first
      one after it. */
  predicate TruncationShown(c: Cluster) {
    && Truncated(c) && 0 < c.mark < |c.run.snapshots|
    && ShownLive(c.run.snapshots[c.mark - 1]) && ShownLive(c.run.snapshots[c.mark])
    && |Shown(c.run.snapshots[c.mark - 1])| >= 2
  }

  /** The leader-append-only checker rejects exactly when the truncation is shown and the leader has not
      been given the removed entries again before the second snapshot. */
  lemma TruncationFlaggedExactly(count: nat, es: seq<Event>)
    ensures var c := Drive(StartCluster(count, LeaderTruncatesOwnLog), es);
            !LeaderAppendOnly(c.run) <==>
              TruncationShown(c) && !(Shown(c.run.snapshots[c.mark - 1]) <= Shown(c.run.snapshots[c.mark]))
  {
    var c := Drive(StartCluster(count, LeaderTruncatesOwnLog), es);
    DriveTruncating(count, es);
    hide Drive, StartCluster;
    var ss := c.run.snapshots;
    forall s: nat ensures AppendOnlyInto(c.run, s) <==>
      (0 < s < |ss| && ShownLive(ss[s - 1]) && ShownLive(ss[s]) ==> Shown(ss[s - 1]) <= Shown(ss[s]))
    {
      if 0 < s < |ss| { AppendOnlyOfWriter(ss[s - 1].nodes, ss[s].nodes, |c.nodes|); }
    }
    forall s | 0 < s < |ss| && ShownLive(ss[s - 1]) && ShownLive(ss[s]) && !(Shown(ss[s - 1]) <= Shown(ss[s]))
      ensures s == c.mark && TruncationShown(c)
    {
      OnlyAtTheMark(c, s);
    }
    if TruncationShown(c) && !(Shown(ss[c.mark - 1]) <= Shown(ss[c.mark])) { assert !AppendOnlyInto(c.run, c.mark); }
  }

  lemma OnlyAtTheMark(c: Cluster, s: nat)
    requires Truncating(c) && 0 < s < |c.run.snapshots|
    requires ShownLive(c.run.snapshots[s - 1]) && ShownLive(c.run.snapshots[s])
    requires !(Shown(c.run.snapshots[s - 1]) <= Shown(c.run.snapshots[s]))
    ensures s == c.mark && TruncationShown(c)
  {
    var ss := c.run.snapshots;
    assert c.mark <= |ss|;
    hide WriterShape, Shown, ShownLive;
    assert Truncated(c) && s == c.mark;
    SameFirst(Shown(ss[s - 1]), Shown(ss[s]), LeaderLog(c));
  }

  /** A log that starts like another and is not a prefix of it has a second entry. */
  lemma SameFirst(p: seq<LogEntry>, q: seq<LogEntry>, log: seq<LogEntry>)
    requires q != [] && q <= log && (p != [] ==> p[0] == log[0]) && !(p <= q)
    ensures |p| >= 2
  {
    assert q[0] == log[0];
  }

  // ---- distinct submits --------------------------------------------------------------------

  /** No value is submitted twice: the driver numbers its values. */
  ghost predicate DistinctSubmits(es: seq<Event>) {
    forall i, j :: 0 <= i < j < |es| && es[i].Invoke? && es[j].Invoke? ==> es[i].value != es[j].value
  }

  ghost predicate Submitted(es: seq<Event>, v: string) {
    exists i :: 0 <= i < |es| && es[i] == Invoke(v)
  }

  ghost predicate AllSubmitted(es: seq<Event>, log: seq<LogEntry>) {
    forall i :: 0 <= i < |log| ==> Submitted(es, log[i].value)
  }

  /** Everything in the leader's log and in the snapshots was submitted; what the leader was given since the
      truncation is not what it had shown in second place before it. */
  ghost predicate Tracked(c: Cluster, es: seq<Event>) {
    var ss := c.run.snapshots;
    && AllSubmitted(es, LeaderLog(c))
    && (forall s :: 0 <= s < |ss| ==> AllSubmitted(es, Shown(ss[s])))
    && (Truncated(c) ==> forall s :: 0 <= s < c.mark && s < |ss| && |Shown(ss[s])| >= 2 ==>
          NotAgain(LeaderLog(c), Shown(ss[s])[1].value))
  }

  ghost predicate NotAgain(log: seq<LogEntry>, v: string) {
    forall j :: 1 <= j < |log| ==> log[j].value != v
  }

  lemma SubmittedGrows(es: seq<Event>, e: Event, log: seq<LogEntry>)
    requires AllSubmitted(es, log)
    ensures AllSubmitted(es + [e], log)
  {
    forall i | 0 <= i < |log| ensures Submitted(es + [e], log[i].value) {
      var j :| 0 <= j < |es| && es[j] == Invoke(log[i].value);
      assert (es + [e])[j] == Invoke(log[i].value);
    }
  }

  lemma NewSubmit(es: seq<Event>, v: string, log: seq<LogEntry>)
    requires AllSubmitted(es, log)
    ensures AllSubmitted(es + [Invoke(v)], log + [LogEntry(1, v)])
  {
    SubmittedGrows(es, Invoke(v), log);
    assert (es + [Invoke(v)])[|es|] == Invoke(v);
  }

  lemma FreshSubmit(es: seq<Event>, v: string, w: string)
    requires DistinctSubmits(es + [Invoke(v)]) && Submitted(es, w)
    ensures w != v
  {
    var i :| 0 <= i < |es| && es[i] == Invoke(w);
    assert (es + [Invoke(v)])[i] == Invoke(w) && (es + [Invoke(v)])[|es|] == Invoke(v);
  }

  lemma InvokeTracked(c: Cluster, es: seq<Event>, v: string)
    requires Truncating(c) && Tracked(c, es) && DistinctSubmits(es + [Invoke(v)])
    ensures Tracked(Step(c, Invoke(v)), es + [Invoke(v)])
  {
    var d, all, ss := Step(c, Invoke(v)), es + [Invoke(v)], c.run.snapshots;
    InvokeWrites(c, v);
    hide Step, WriterShape, AllSubmitted, Submitted, DistinctSubmits;
    NewSubmit(es, v, LeaderLog(c));
    SubmittedGrows(es, Invoke(v), LeaderLog(c));
    SubmittedTake(all, LeaderLog(c));
    forall s | 0 <= s < |ss| ensures AllSubmitted(all, Shown(ss[s])) { SubmittedGrows(es, Invoke(v), Shown(ss[s])); }
    if Truncated(d) && Truncated(c) {
      forall s | 0 <= s < c.mark && s < |ss| && |Shown(ss[s])| >= 2
        ensures NotAgain(LeaderLog(d), Shown(ss[s])[1].value)
      {
        SubmittedAt(es, Shown(ss[s]), 1);
        FreshSubmit(es, v, Shown(ss[s])[1].value);
      }
    }
  }

  lemma SubmittedTake(es: seq<Event>, log: seq<LogEntry>)
    requires AllSubmitted(es, log)
    ensures log != [] ==> AllSubmitted(es, log[..1])
  {}

  lemma SubmittedAt(es: seq<Event>, log: seq<LogEntry>, i: nat)
    requires AllSubmitted(es, log) && i < |log|
    ensures Submitted(es, log[i].value)
  {}

  lemma OtherTracked(c: Cluster, es: seq<Event>, e: Event)
    requires Truncating(c) && Tracked(c, es) && !e.Invoke?
    ensures Tracked(Step(c, e), es + [e])
  {
    ObserveTruncating(c);
    var d, ss := Step(c, e), c.run.snapshots;
    assert LeaderLog(d) == LeaderLog(c) && Truncated(d) == Truncated(c) && d.mark == c.mark <= |ss|;
    assert d.run.snapshots == ss || d.run.snapshots == ss + [Snap(c.nodes, c.live)];
    hide Step, Truncating, AllSubmitted, Snap;
    SubmittedGrows(es, e, LeaderLog(c));
    NothingSubmitted(es + [e]);
    forall s | 0 <= s < |ss| ensures AllSubmitted(es + [e], Shown(ss[s])) { SubmittedGrows(es, e, Shown(ss[s])); }
  }

  lemma NothingSubmitted(es: seq<Event>)
    ensures AllSubmitted(es, [])
  {}

  lemma {:induction false} DriveTracked(count: nat, es: seq<Event>)
    requires DistinctSubmits(es)
    ensures Tracked(Drive(StartCluster(count, LeaderTruncatesOwnLog), es), es)
    decreases |es|
  {
    if es != [] {
      var n := |es| - 1;
      var before, e := es[..n], es[n];
      var c := Drive(StartCluster(count, LeaderTruncatesOwnLog), before);
      assert es == before + [e];
      DriveTracked(count, before);
      DriveTruncating(count, before);
      hide Tracked, Truncating, Step;
      if e.Invoke? { InvokeTracked(c, before, e.value); } else { OtherTracked(c, before, e); }
    }
  }

  /** With distinct values the truncation is flagged exactly when it is shown. */
  lemma DistinctTruncationFlaggedExactly(count: nat, es: seq<Event>)
    requires DistinctSubmits(es)
    ensures var c := Drive(StartCluster(count, LeaderTruncatesOwnLog), es);
            !LeaderAppendOnly(c.run) <==> TruncationShown(c)
  {
    var c := Drive(StartCluster(count, LeaderTruncatesOwnLog), es);
    TruncationFlaggedExactly(count, es);
    DriveTruncating(count, es);
    DriveTracked(count, es);
    hide Drive, StartCluster, LeaderAppendOnly, WriterShape, AllSubmitted;
    if TruncationShown(c) {
      var p, q := Shown(c.run.snapshots[c.mark - 1]), Shown(c.run.snapshots[c.mark]);
      assert q <= LeaderLog(c) && NotAgain(LeaderLog(c), p[1].value);
      if |q| >= 2 { assert q[1] == LeaderLog(c)[1]; }
    }
  }
}
