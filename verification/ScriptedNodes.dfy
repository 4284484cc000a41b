/**
 The scripted replicas that exercise the checkers, driven by any interleaving of submits, snapshots
 and liveness changes. The honest variants pass every checker; the variant that overwrites a
 committed entry is rejected exactly when both values were seen.
 */
module ScriptedNodes {
  import opened Observation
  import opened Checkers

  datatype Fault =
    | TwoLeadersSameTerm
    | LeaderTruncatesOwnLog
    | DropCommittedEntry
    | LogMatchingViolation
    | HonestSingleLeader
    | HonestSingleLeaderAlt

  const CLOBBERED := LogEntry(1, "CLOBBERED")

  datatype Node = Node(id: nat, fault: Fault, log: seq<LogEntry>, scripted: seq<LogEntry>, commit: nat,
                       clobbered: bool, truncated: bool)

  function StartNode(id: nat, fault: Fault): Node {
    var scripted := if fault != LogMatchingViolation || id > 1 then []
                    else [LogEntry(1, if id == 0 then "A1" else "B1"), LogEntry(1, "X2")];
    Node(id, fault, [], scripted, 0, false, false)
  }

  function RoleOf(n: Node): Role {
    if n.fault == TwoLeadersSameTerm || n.id == 0 then Leader else Follower
  }

  function LogOf(n: Node): seq<LogEntry> {
    if n.fault == LogMatchingViolation then n.scripted else n.log
  }

  /** `apply_script`: the misbehaviour that follows an append. */
  function ApplyScript(n: Node): Node {
    match n.fault
    case LeaderTruncatesOwnLog =>
      if |n.log| >= 4 && !n.truncated then n.(log := n.log[..1], truncated := true) else n
    case DropCommittedEntry =>
      var m := n.(commit := |n.log|);
      if |n.log| >= 4 && !n.clobbered then m.(log := n.log[0 := CLOBBERED], clobbered := true) else m
    case HonestSingleLeader => n.(commit := |n.log|)
    case HonestSingleLeaderAlt => n.(commit := |n.log|)
    case TwoLeadersSameTerm => n
    case LogMatchingViolation => n
  }

  /** `submit` on a node that leads. */
  function Accept(n: Node, value: string): Node {
    ApplyScript(n.(log := n.log + [LogEntry(1, if n.fault == HonestSingleLeaderAlt then "ALT:" + value else value)]))
  }

  /** The replica as the object the source has. */
  class ScriptedNode {
    const id: nat
    const fault: Fault
    var log: seq<LogEntry>
    var scripted: seq<LogEntry>
    var commit: nat
    var clobbered: bool
    var truncated: bool

    function Abs(): Node
      reads this
    {
      Node(id, fault, log, scripted, commit, clobbered, truncated)
    }

    constructor (id: nat, fault: Fault)
      ensures Abs() == StartNode(id, fault)
    {
      this.id, this.fault := id, fault;
      log, commit, clobbered, truncated := [], 0, false, false;
      scripted := StartNode(id, fault).scripted;
    }

    /** `submit`: only a leader accepts; the script runs right after the append. */
    method Submit(value: string) returns (accepted: bool, index: nat)
      modifies this
      ensures accepted <==> RoleOf(old(Abs())) == Leader
      ensures Abs() == if accepted then Accept(old(Abs()), value) else old(Abs())
      ensures index == if accepted then |log| else 0
    {
      if RoleOf(Abs()) != Leader {
        return false, 0;
      }
      var stored := if fault == HonestSingleLeaderAlt then "ALT:" + value else value;
      log := log + [LogEntry(1, stored)];
      RunScript();
      return true, |log|;
    }

    method RunScript()
      modifies this
      ensures Abs() == ApplyScript(old(Abs()))
    {
      if fault == LeaderTruncatesOwnLog {
        if |log| >= 4 && !truncated {
          log := log[..1];
          truncated := true;
        }
      } else if fault == DropCommittedEntry {
        commit := |log|;
        if |log| >= 4 && !clobbered {
          log := log[0 := CLOBBERED];
          clobbered := true;
        }
      } else if fault == HonestSingleLeader || fault == HonestSingleLeaderAlt {
        commit := |log|;
      }
    }
  }

  // ---- the driver --------------------------------------------------------------------------

  /** A client operation in flight. */
  datatype Pending = Pending(value: string, invoked: int, accepted: bool, committed: bool, index: nat)

  /** `overwritten` and `mark` remember, for the statements only, which first entry the misbehaving node 0 had
      and how many snapshots had been taken when it clobbered or truncated its log. */
  datatype Cluster = Cluster(nodes: seq<Node>, live: seq<bool>, now: int, run: Run, pending: seq<Pending>,
                             overwritten: LogEntry, mark: nat)

  datatype Event =
    | Wait(ticks: nat)
    | SetLive(node: nat, up: bool)
    | Observe
    | Invoke(value: string)
    | Poll(op: nat)
    | Respond(op: nat)

  function StartNodes(count: nat, fault: Fault): seq<Node> {
    seq(count, i requires 0 <= i < count => StartNode(i, fault))
  }

  function StartCluster(count: nat, fault: Fault): Cluster {
    Cluster(StartNodes(count, fault), seq(count, _ => true), 0, Run([], []), [], BLANK, 0)
  }

  /** What `snapshot` records of a node: a crashed one serves nothing. */
  function Record(n: Node, live: bool): NodeSnapshot {
    if live then NodeSnapshot(n.id, true, RoleOf(n), 1, n.commit, LogOf(n))
    else NodeSnapshot(n.id, false, Follower, 0, 0, [])
  }

  function Snap(nodes: seq<Node>, live: seq<bool>): (s: ClusterSnapshot)
    requires |live| == |nodes|
    ensures |s.nodes| == |nodes| && forall i :: 0 <= i < |nodes| ==> s.nodes[i] == Record(nodes[i], live[i])
  {
    ClusterSnapshot(seq(|nodes|, i requires 0 <= i < |nodes| => Record(nodes[i], live[i])))
  }

  function Observed(c: Cluster): Cluster {
    if |c.live| == |c.nodes| then c.(run := c.run.(snapshots := c.run.snapshots + [Snap(c.nodes, c.live)])) else c
  }

  /** `believed_leader`: the lowest live node that leads, or the count. */
  function BelievedLeader(nodes: seq<Node>, live: seq<bool>): (i: nat)
    requires |live| == |nodes|
    ensures i <= |nodes| && (i < |nodes| ==> live[i] && RoleOf(nodes[i]) == Leader)
    ensures forall j :: 0 <= j < i ==> !live[j] || RoleOf(nodes[j]) != Leader
  {
    if nodes == [] then 0
    else if live[0] && RoleOf(nodes[0]) == Leader then 0
    else
      var k := BelievedLeader(nodes[1..], live[1..]);
      assert forall j :: 1 <= j < k + 1 ==> nodes[j] == nodes[1..][j - 1] && live[j] == live[1..][j - 1];
      k + 1
  }

  /** Some live node has committed the operation's index with the operation's value. */
  predicate SeesCommit(nodes: seq<Node>, live: seq<bool>, p: Pending)
    requires |live| == |nodes|
  {
    exists i :: 0 <= i < |nodes| && live[i] && p.index <= nodes[i].commit &&
      0 < p.index <= |LogOf(nodes[i])| && LogOf(nodes[i])[p.index - 1].value == p.value
  }

  function Step(c: Cluster, e: Event): Cluster {
    if |c.live| != |c.nodes| then c
    else match e
      case Wait(d) => c.(now := c.now + d)
      case SetLive(i, up) => if i < |c.live| then c.(live := c.live[i := up]) else c
      case Observe => Observed(c)
      case Invoke(v) =>
        var li := BelievedLeader(c.nodes, c.live);
        if li == |c.nodes| then c.(pending := c.pending + [Pending(v, c.now, false, false, 0)])
        else
          var n := Accept(c.nodes[li], v);
          var c1 := c.(nodes := c.nodes[li := n], pending := c.pending + [Pending(v, c.now, true, false, |n.log|)]);
          if (n.clobbered && !c.nodes[li].clobbered) || (n.truncated && !c.nodes[li].truncated)
          then c1.(overwritten := (c.nodes[li].log + [LogEntry(1, v)])[0], mark := |c.run.snapshots|)
          else c1
      case Poll(k) =>
        if k < |c.pending| && c.pending[k].accepted && !c.pending[k].committed then
          Observed(c).(pending := c.pending[k := c.pending[k].(committed := SeesCommit(c.nodes, c.live, c.pending[k]))])
        else c
      case Respond(k) =>
        if k < |c.pending| then
          var p := c.pending[k];
          c.(run := c.run.(submits := c.run.submits + [Submit(p.value, p.invoked, c.now, p.committed, p.index)]))
        else c
  }

  function Drive(c: Cluster, es: seq<Event>): Cluster
    decreases |es|
  {
    if es == [] then c else Step(Drive(c, es[..|es| - 1]), es[|es| - 1])
  }

  // ---- what single-leader runs look like ---------------------------------------------------

  ghost predicate SingleLeader(nodes: seq<Node>) {
    forall i :: 0 <= i < |nodes| ==>
      && nodes[i].id == i
      && nodes[i].fault in {HonestSingleLeader, HonestSingleLeaderAlt, DropCommittedEntry}
      && nodes[i].fault == nodes[0].fault
      && (i > 0 ==> nodes[i].log == [] && nodes[i].commit == 0)
      && nodes[i].commit == |nodes[i].log|
  }

  /** Only node 0, and only while live, shows anything. */
  ghost predicate Quiet(s: ClusterSnapshot, count: nat) {
    && |s.nodes| == count
    && forall i :: 0 <= i < count ==>
         && s.nodes[i].id == i
         && s.nodes[i].commit == |s.nodes[i].log|
         && (i > 0 || !s.nodes[i].live ==> s.nodes[i].role == Follower && s.nodes[i].log == [])
  }

  ghost predicate Shape(c: Cluster) {
    && |c.live| == |c.nodes|
    && SingleLeader(c.nodes)
    && forall s :: 0 <= s < |c.run.snapshots| ==> Quiet(c.run.snapshots[s], |c.nodes|)
  }

  lemma OnlyZeroLeads(nodes: seq<Node>, live: seq<bool>)
    requires |live| == |nodes| && SingleLeader(nodes)
    ensures var li := BelievedLeader(nodes, live); li == |nodes| || li == 0
  {
    var li := BelievedLeader(nodes, live);
    if li < |nodes| { assert RoleOf(nodes[li]) == Leader; }
  }

  lemma SnapQuiet(c: Cluster)
    requires Shape(c)
    ensures Quiet(Snap(c.nodes, c.live), |c.nodes|)
  {}

  lemma AcceptKeepsSingle(nodes: seq<Node>, v: string)
    requires nodes != [] && SingleLeader(nodes)
    ensures SingleLeader(nodes[0 := Accept(nodes[0], v)])
  {}

  lemma StepShape(c: Cluster, e: Event)
    requires Shape(c)
    ensures Shape(Step(c, e)) && |Step(c, e).nodes| == |c.nodes|
  {
    SnapQuiet(c);
    if e.Invoke? {
      OnlyZeroLeads(c.nodes, c.live);
      if BelievedLeader(c.nodes, c.live) < |c.nodes| { AcceptKeepsSingle(c.nodes, e.value); }
    }
  }

  /** The leader's log now, and as a snapshot recorded it. */
  function LeaderLog(c: Cluster): seq<LogEntry> {
    if c.nodes == [] then [] else c.nodes[0].log
  }

  function Shown(s: ClusterSnapshot): seq<LogEntry> {
    if s.nodes == [] then [] else s.nodes[0].log
  }

  predicate ShownLive(s: ClusterSnapshot) {
    s.nodes != [] && s.nodes[0].live
  }

  /** Everything a single-leader run ever commits is what its snapshots show of node 0. */
  lemma PrefixesAreShown(c: Cluster, x: seq<LogEntry>)
    requires Shape(c)
    requires forall s :: 0 <= s < |c.run.snapshots| ==> Shown(c.run.snapshots[s]) <= x
    ensures AllPrefixOf(Prefixes(c.run.snapshots), x)
  {
    var ps := Prefixes(c.run.snapshots);
    forall i | 0 <= i < |ps| ensures ps[i] <= x {
      var s, n := PrefixesOnly(c.run.snapshots, i);
      assert Quiet(c.run.snapshots[s], |c.nodes|);
      if n > 0 { assert c.run.snapshots[s].nodes[n].log == []; }
    }
  }

  lemma ShownIsPrefix(c: Cluster, s: nat)
    requires Shape(c) && s < |c.run.snapshots| && ShownLive(c.run.snapshots[s])
    ensures Shown(c.run.snapshots[s]) in Prefixes(c.run.snapshots)
  {
    var n := c.run.snapshots[s].nodes[0];
    assert Quiet(c.run.snapshots[s], |c.nodes|);
    assert Committed(n) == n.log;
    PrefixesHold(c.run.snapshots, s, 0);
  }

  // ---- honest runs -------------------------------------------------------------------------

  /** The leader holds the value at the index, and some snapshot has shown that much of its log. */
  ghost predicate Seen(c: Cluster, value: string, index: nat) {
    && 0 < index <= |LeaderLog(c)| && LeaderLog(c)[index - 1].value == value
    && exists s :: 0 <= s < |c.run.snapshots| && ShownLive(c.run.snapshots[s]) && index <= |Shown(c.run.snapshots[s])|
  }

  ghost predicate HistoryOk(c: Cluster) {
    && (forall s :: 0 <= s < |c.run.snapshots| ==> Shown(c.run.snapshots[s]) <= LeaderLog(c))
    && (forall s, t :: 0 <= s < t < |c.run.snapshots| && ShownLive(c.run.snapshots[s]) && ShownLive(c.run.snapshots[t]) ==>
          Shown(c.run.snapshots[s]) <= Shown(c.run.snapshots[t]))
  }

  ghost predicate ClientsOk(c: Cluster) {
    && (forall k :: 0 <= k < |c.pending| ==> c.pending[k].invoked <= c.now)
    && (forall k :: 0 <= k < |c.pending| && c.pending[k].committed ==>
          Seen(c, c.pending[k].value, c.pending[k].index))
    && (forall k :: 0 <= k < |c.run.submits| ==> c.run.submits[k].invoked <= c.run.submits[k].returned)
    && (forall k :: 0 <= k < |c.run.submits| && c.run.submits[k].committed ==>
          Seen(c, c.run.submits[k].value, c.run.submits[k].index))
  }

  ghost predicate Honest(c: Cluster) {
    && Shape(c)
    && (c.nodes != [] ==> c.nodes[0].fault != DropCommittedEntry)
    && HistoryOk(c)
    && ClientsOk(c)
  }

  /** Progress never takes back what was seen. */
  lemma SeenStays(c: Cluster, d: Cluster, value: string, index: nat)
    requires Seen(c, value, index)
    requires LeaderLog(c) <= LeaderLog(d) && c.run.snapshots <= d.run.snapshots
    ensures Seen(d, value, index)
  {
    var s :| 0 <= s < |c.run.snapshots| && ShownLive(c.run.snapshots[s]) && index <= |Shown(c.run.snapshots[s])|;
    assert d.run.snapshots[s] == c.run.snapshots[s];
  }

  lemma ClientsStay(c: Cluster, d: Cluster)
    requires ClientsOk(c) && c.now <= d.now && d.pending == c.pending && d.run.submits == c.run.submits
    requires LeaderLog(c) <= LeaderLog(d) && c.run.snapshots <= d.run.snapshots
    ensures ClientsOk(d)
  {
    forall k | 0 <= k < |c.pending| && c.pending[k].committed
      ensures Seen(d, c.pending[k].value, c.pending[k].index)
    {
      SeenStays(c, d, c.pending[k].value, c.pending[k].index);
    }
    forall k | 0 <= k < |c.run.submits| && c.run.submits[k].committed
      ensures Seen(d, c.run.submits[k].value, c.run.submits[k].index)
    {
      SeenStays(c, d, c.run.submits[k].value, c.run.submits[k].index);
    }
  }

  lemma ObserveHonest(c: Cluster)
    requires Honest(c)
    ensures Honest(Observed(c))
    ensures c.nodes != [] && c.live[0] ==> ShownLive(Snap(c.nodes, c.live)) && Shown(Snap(c.nodes, c.live)) == LeaderLog(c)
  {
    var d := Observed(c);
    var snap := Snap(c.nodes, c.live);
    SnapQuiet(c);
    assert c.nodes != [] ==> snap.nodes[0] == Record(c.nodes[0], c.live[0]);
    assert d.run.snapshots == c.run.snapshots + [snap];
    ClientsStay(c, d);
  }

  lemma InvokeGrows(c: Cluster, v: string)
    requires Honest(c)
    ensures var d := Step(c, Invoke(v));
            && Shape(d) && HistoryOk(d) && (d.nodes != [] ==> d.nodes[0].fault != DropCommittedEntry)
            && LeaderLog(c) <= LeaderLog(d) && d.run == c.run && d.now == c.now
            && |d.pending| == |c.pending| + 1 && d.pending[..|c.pending|] == c.pending
            && !d.pending[|c.pending|].committed && d.pending[|c.pending|].invoked == c.now
  {
    StepShape(c, Invoke(v));
    OnlyZeroLeads(c.nodes, c.live);
    hide ClientsOk, Shape;
  }

  lemma InvokeHonest(c: Cluster, v: string)
    requires Honest(c)
    ensures Honest(Step(c, Invoke(v)))
  {
    var d := Step(c, Invoke(v));
    InvokeGrows(c, v);
    hide Shape, SingleLeader, Step, HistoryOk;
    ClientsStay(c, d.(pending := c.pending));
    var bare := d.(pending := c.pending);
    forall k | 0 <= k < |d.pending| && d.pending[k].committed ensures Seen(d, d.pending[k].value, d.pending[k].index) {
      SeenStays(bare, d, d.pending[k].value, d.pending[k].index);
    }
    forall k | 0 <= k < |d.run.submits| && d.run.submits[k].committed
      ensures Seen(d, d.run.submits[k].value, d.run.submits[k].index)
    {
      SeenStays(bare, d, d.run.submits[k].value, d.run.submits[k].index);
    }
  }

  /** What the client's commit test sees has just been shown by a snapshot. */
  lemma PollSees(c: Cluster, p: Pending)
    requires Honest(c) && SeesCommit(c.nodes, c.live, p)
    ensures Seen(Observed(c), p.value, p.index)
  {
    var i :| 0 <= i < |c.nodes| && c.live[i] && p.index <= c.nodes[i].commit &&
      0 < p.index <= |LogOf(c.nodes[i])| && LogOf(c.nodes[i])[p.index - 1].value == p.value;
    assert i == 0;
    ObserveHonest(c);
    var d := Observed(c);
    var s := |c.run.snapshots|;
    assert d.run.snapshots[s] == Snap(c.nodes, c.live);
  }

  lemma PollHonest(c: Cluster, k: nat)
    requires Honest(c)
    ensures Honest(Step(c, Poll(k)))
  {
    if k < |c.pending| && c.pending[k].accepted && !c.pending[k].committed {
      var d, e := Observed(c), Step(c, Poll(k));
      ObserveHonest(c);
      if SeesCommit(c.nodes, c.live, c.pending[k]) { PollSees(c, c.pending[k]); }
      forall j | 0 <= j < |e.pending| && e.pending[j].committed ensures Seen(e, e.pending[j].value, e.pending[j].index) {
        SeenStays(d, e, e.pending[j].value, e.pending[j].index);
      }
      forall j | 0 <= j < |e.run.submits| && e.run.submits[j].committed
        ensures Seen(e, e.run.submits[j].value, e.run.submits[j].index)
      {
        SeenStays(d, e, e.run.submits[j].value, e.run.submits[j].index);
      }
    }
  }

  lemma RespondHonest(c: Cluster, k: nat)
    requires Honest(c)
    ensures Honest(Step(c, Respond(k)))
  {
    var e := Step(c, Respond(k));
    forall j | 0 <= j < |e.pending| && e.pending[j].committed ensures Seen(e, e.pending[j].value, e.pending[j].index) {
      SeenStays(c, e, e.pending[j].value, e.pending[j].index);
    }
    forall j | 0 <= j < |e.run.submits| && e.run.submits[j].committed
      ensures Seen(e, e.run.submits[j].value, e.run.submits[j].index)
    {
      SeenStays(c, e, e.run.submits[j].value, e.run.submits[j].index);
    }
  }

  lemma StepHonest(c: Cluster, e: Event)
    requires Honest(c)
    ensures Honest(Step(c, e))
  {
    match e
    case Wait(d) => ClientsStay(c, Step(c, e));
    case SetLive(i, up) => ClientsStay(c, Step(c, e));
    case Observe => ObserveHonest(c);
    case Invoke(v) => InvokeHonest(c, v);
    case Poll(k) => PollHonest(c, k);
    case Respond(k) => RespondHonest(c, k);
  }

  lemma {:induction false} DriveHonest(count: nat, fault: Fault, es: seq<Event>)
    requires fault == HonestSingleLeader || fault == HonestSingleLeaderAlt
    ensures Honest(Drive(StartCluster(count, fault), es))
    decreases |es|
  {
    if es != [] {
      DriveHonest(count, fault, es[..|es| - 1]);
      hide Honest;
      StepHonest(Drive(StartCluster(count, fault), es[..|es| - 1]), es[|es| - 1]);
    }
  }

  /** Honest single-leader runs pass all five checkers, whatever the interleaving of submits, snapshots,
      polls and liveness changes. */
  lemma HonestRunsPass(count: nat, fault: Fault, es: seq<Event>)
    requires fault == HonestSingleLeader || fault == HonestSingleLeaderAlt
    ensures var r := Drive(StartCluster(count, fault), es).run;
            && CommitsHeld(r)
            && ElectionSafety(r) && LogMatching(r) && StateMachineSafety(r) && LeaderAppendOnly(r) && Linearizable(r)
  {
    var c := Drive(StartCluster(count, fault), es);
    DriveHonest(count, fault, es);
    QuietPasses(c);
    HonestAppendOnly(c);
    HonestLinearizable(c);
    TotalOrderHalvesAgree(c.run);
  }

  lemma QuietPasses(c: Cluster)
    requires Shape(c)
    ensures CommitsHeld(c.run) && ElectionSafety(c.run) && LogMatching(c.run)
  {
    var r := c.run;
    forall s | 0 <= s < |r.snapshots| ensures Quiet(r.snapshots[s], |c.nodes|) {}
  }

  lemma HonestAppendOnly(c: Cluster)
    requires Honest(c)
    ensures LeaderAppendOnly(c.run)
  {
    forall s: nat ensures AppendOnlyInto(c.run, s) {
      if 0 < s < |c.run.snapshots| { HonestStepAppendOnly(c, s); }
    }
  }

  lemma HonestStepAppendOnly(c: Cluster, s: nat)
    requires Honest(c) && 0 < s < |c.run.snapshots|
    ensures StepAppendOnly(c.run.snapshots[s - 1].nodes, c.run.snapshots[s].nodes)
  {
    var a, b := c.run.snapshots[s - 1], c.run.snapshots[s];
    assert Quiet(a, |c.nodes|);
    assert Quiet(b, |c.nodes|);
    forall n | 0 <= n < |a.nodes| ensures AppendOnly(a.nodes[n], b.nodes) {
      assert b.nodes[n].id == n;
      assert Find(b.nodes, n) == n;
      if n == 0 && ShownLive(a) && ShownLive(b) {
        assert Shown(a) <= Shown(b);
      }
    }
  }

  lemma HonestLinearizable(c: Cluster)
    requires Honest(c)
    ensures Linearizable(c.run)
  {
    var ps := Prefixes(c.run.snapshots);
    PrefixesAreShown(c, LeaderLog(c));
    assert OneSequence(ps);
    FirstSeenIsTheSequence(ps);
    var t := FirstSeen(ps);
    forall k | 0 <= k < |c.run.submits| ensures Linearized(c.run.submits[k], t) {
      if c.run.submits[k].committed { SeenIsOrdered(c, c.run.submits[k].value, c.run.submits[k].index, t); }
    }
  }

  lemma SeenIsOrdered(c: Cluster, value: string, index: nat, t: seq<LogEntry>)
    requires Honest(c) && Seen(c, value, index) && SumOf(t, Prefixes(c.run.snapshots))
    requires AllPrefixOf(Prefixes(c.run.snapshots), LeaderLog(c))
    ensures 0 < index <= |t| && t[index - 1].value == value
  {
    var s :| 0 <= s < |c.run.snapshots| && ShownLive(c.run.snapshots[s]) && index <= |Shown(c.run.snapshots[s])|;
    ShownIsPrefix(c, s);
    assert Shown(c.run.snapshots[s]) <= t;
    assert t <= LeaderLog(c);
  }

  // ---- the run that drops a committed entry ------------------------------------------------

  /** Node 0's log with the overwritten entry put back. */
  function Original(c: Cluster): seq<LogEntry> {
    if c.nodes != [] && c.nodes[0].clobbered && c.nodes[0].log != [] then c.nodes[0].log[0 := c.overwritten]
    else LeaderLog(c)
  }

  ghost predicate Dropping(c: Cluster) {
    && Shape(c)
    && (c.nodes != [] ==> c.nodes[0].fault == DropCommittedEntry)
    && c.mark <= |c.run.snapshots|
    && (c.nodes != [] && c.nodes[0].clobbered ==> c.nodes[0].log != [] && c.nodes[0].log[0] == CLOBBERED)
    && (forall s :: 0 <= s < |c.run.snapshots| && (!Clobbered(c) || s < c.mark) ==>
          Shown(c.run.snapshots[s]) <= Original(c))
    && (forall s :: c.mark <= s < |c.run.snapshots| && Clobbered(c) ==>
          Shown(c.run.snapshots[s]) <= LeaderLog(c) && (ShownLive(c.run.snapshots[s]) ==> Shown(c.run.snapshots[s]) != []))
  }

  predicate Clobbered(c: Cluster) {
    c.nodes != [] && c.nodes[0].clobbered
  }

  lemma ObserveDropping(c: Cluster)
    requires Dropping(c)
    ensures Dropping(Observed(c))
  {
    var d := Observed(c);
    var snap := Snap(c.nodes, c.live);
    SnapQuiet(c);
    assert c.nodes != [] ==> snap.nodes[0] == Record(c.nodes[0], c.live[0]);
    assert d.run.snapshots == c.run.snapshots + [snap];
  }

  lemma InvokeDropping(c: Cluster, v: string)
    requires Dropping(c)
    ensures Dropping(Step(c, Invoke(v)))
  {
    var d := Step(c, Invoke(v));
    StepShape(c, Invoke(v));
    OnlyZeroLeads(c.nodes, c.live);
    if BelievedLeader(c.nodes, c.live) < |c.nodes| {
      assert d.nodes[0] == Accept(c.nodes[0], v);
      assert Original(c) <= Original(d);
      assert Clobbered(c) ==> LeaderLog(c) <= LeaderLog(d);
    }
  }

  lemma StepDropping(c: Cluster, e: Event)
    requires Dropping(c)
    ensures Dropping(Step(c, e))
  {
    match e
    case Wait(d) =>
    case SetLive(i, up) =>
    case Observe => ObserveDropping(c);
    case Invoke(v) => InvokeDropping(c, v);
    case Poll(k) => ObserveDropping(c);
    case Respond(k) =>
  }

  lemma {:induction false} DriveDropping(count: nat, es: seq<Event>)
    ensures Dropping(Drive(StartCluster(count, DropCommittedEntry), es))
    decreases |es|
  {
    if es != [] {
      DriveDropping(count, es[..|es| - 1]);
      hide Dropping;
      StepDropping(Drive(StartCluster(count, DropCommittedEntry), es[..|es| - 1]), es[|es| - 1]);
    }
  }

  /** Node 0 was seen live with an original first entry, different from the clobbering one, before the
      clobber, and seen live again after it. */
  ghost predicate BothValuesSeen(c: Cluster) {
    && Clobbered(c)
    && c.overwritten != CLOBBERED
    && (exists s :: 0 <= s < c.mark && s < |c.run.snapshots| && ShownLive(c.run.snapshots[s]) && Shown(c.run.snapshots[s]) != [])
    && (exists t :: c.mark <= t < |c.run.snapshots| && ShownLive(c.run.snapshots[t]))
  }

  /** The run is rejected by the state-machine-safety checker exactly when both values were seen. */
  lemma DroppedEntryFlaggedExactly(count: nat, es: seq<Event>)
    ensures var c := Drive(StartCluster(count, DropCommittedEntry), es);
            CommitsHeld(c.run) && (!StateMachineSafety(c.run) <==> BothValuesSeen(c))
  {
    var c := Drive(StartCluster(count, DropCommittedEntry), es);
    DriveDropping(count, es);
    QuietPasses(c);
    if BothValuesSeen(c) { SeenBothConflicts(c); } else { SeenOneIsSafe(c); }
  }

  lemma SeenBothConflicts(c: Cluster)
    requires Dropping(c) && BothValuesSeen(c)
    ensures !StateMachineSafety(c.run)
  {
    var s :| 0 <= s < c.mark && s < |c.run.snapshots| && ShownLive(c.run.snapshots[s]) && Shown(c.run.snapshots[s]) != [];
    var t :| c.mark <= t < |c.run.snapshots| && ShownLive(c.run.snapshots[t]);
    var a, b := Shown(c.run.snapshots[s]), Shown(c.run.snapshots[t]);
    assert a[0] == Original(c)[0] == c.overwritten && b[0] == LeaderLog(c)[0] == CLOBBERED;
    ShownIsPrefix(c, s);
    ShownIsPrefix(c, t);
    Incomparable(a, b, Prefixes(c.run.snapshots));
  }

  lemma SeenOneIsSafe(c: Cluster)
    requires Dropping(c) && !BothValuesSeen(c)
    ensures StateMachineSafety(c.run)
  {
    var ss := c.run.snapshots;
    var x := if Clobbered(c) && exists t :: c.mark <= t < |ss| && ShownLive(ss[t]) then LeaderLog(c) else Original(c);
    forall s | 0 <= s < |ss| ensures Shown(ss[s]) <= x {
      assert Quiet(ss[s], |c.nodes|);
      if !ShownLive(ss[s]) { assert Shown(ss[s]) == []; }
      if c.overwritten == CLOBBERED { assert Original(c) == LeaderLog(c); }
    }
    PrefixesAreShown(c, x);
  }

  // ---- a clobber that goes unnoticed -------------------------------------------------------

  lemma DriveSnoc(c: Cluster, es: seq<Event>, e: Event)
    ensures Drive(c, es + [e]) == Step(Drive(c, es), e)
  {
    assert (es + [e])[..|es|] == es;
  }

  /** Clobbering nodes of which node 0 is up and has not clobbered yet. */
  ghost predicate Unclobbered(c: Cluster, log: seq<LogEntry>) {
    && 0 < |c.nodes| == |c.live| && c.live[0]
    && c.nodes[0].id == 0 && c.nodes[0].fault == DropCommittedEntry && !c.nodes[0].clobbered
    && c.nodes[0].log == log
  }

  lemma UnclobberedInvoke(c: Cluster, log: seq<LogEntry>, v: string)
    requires Unclobbered(c, log) && |log| < 3
    ensures Unclobbered(Step(c, Invoke(v)), log + [LogEntry(1, v)]) && Step(c, Invoke(v)).run == c.run
  {
    assert BelievedLeader(c.nodes, c.live) == 0;
  }

  lemma FourthInvokeClobbers(c: Cluster, log: seq<LogEntry>, v: string)
    requires Unclobbered(c, log) && |log| == 3
    ensures var d := Step(c, Invoke(v));
            && 0 < |d.nodes| == |d.live| && d.live[0] && Clobbered(d) && d.run == c.run
            && d.overwritten == log[0] && d.mark == |c.run.snapshots|
            && d.nodes[0].log == (log + [LogEntry(1, v)])[0 := CLOBBERED] && d.nodes[0].fault == DropCommittedEntry
  {
    assert BelievedLeader(c.nodes, c.live) == 0;
  }

  /** Four clients submit at one tick, between the initial snapshot and the next one. */
  function SameTick(a: string, b: string, c: string, d: string): seq<Event> {
    [Observe] + [Invoke(a)] + [Invoke(b)] + [Invoke(c)] + [Invoke(d)] + [Observe]
  }

  lemma InitialSnapshot(count: nat)
    requires count > 0
    ensures var m := Drive(StartCluster(count, DropCommittedEntry), [Observe]);
            && Unclobbered(m, []) && |m.run.snapshots| == 1 && Shown(m.run.snapshots[0]) == []
  {
    var s := StartCluster(count, DropCommittedEntry);
    DriveSnoc(s, [], Observe);
    assert [] + [Observe] == [Observe];
    assert Drive(s, []) == s && Unclobbered(s, []);
    hide Drive;
    assert Step(s, Observe).run.snapshots == [Snap(s.nodes, s.live)];
  }

  lemma ThreeAtOnce(count: nat, a: string, b: string, c: string)
    requires count > 0
    ensures var m := Drive(StartCluster(count, DropCommittedEntry),
                           [Observe] + [Invoke(a)] + [Invoke(b)] + [Invoke(c)]);
            && Unclobbered(m, [] + [LogEntry(1, a)] + [LogEntry(1, b)] + [LogEntry(1, c)])
            && |m.run.snapshots| == 1 && Shown(m.run.snapshots[0]) == []
  {
    hide Drive, Step, Unclobbered, StartCluster, Shown;
    var s := StartCluster(count, DropCommittedEntry);
    var e1 := [Observe] + [Invoke(a)];
    var e2 := e1 + [Invoke(b)];
    var la := [] + [LogEntry(1, a)];
    InitialSnapshot(count);
    DriveSnoc(s, [Observe], Invoke(a));
    UnclobberedInvoke(Drive(s, [Observe]), [], a);
    DriveSnoc(s, e1, Invoke(b));
    UnclobberedInvoke(Drive(s, e1), la, b);
    DriveSnoc(s, e2, Invoke(c));
    UnclobberedInvoke(Drive(s, e2), la + [LogEntry(1, b)], c);
  }

  /** In a cluster of any size: the committed first entry is replaced before any snapshot has shown it, and
      the run is accepted. */
  lemma UnseenClobberAccepted(count: nat, a: string, b: string, c: string, d: string)
    requires count > 0
    ensures var m := Drive(StartCluster(count, DropCommittedEntry), SameTick(a, b, c, d));
            && Clobbered(m) && m.overwritten == LogEntry(1, a)
            && |m.run.snapshots| == 2 && ShownLive(m.run.snapshots[1])
            && Shown(m.run.snapshots[1]) != [] && Shown(m.run.snapshots[1])[0] == CLOBBERED
            && StateMachineSafety(m.run)
  {
    var s := StartCluster(count, DropCommittedEntry);
    var es := [Observe] + [Invoke(a)] + [Invoke(b)] + [Invoke(c)];
    var log := [] + [LogEntry(1, a)] + [LogEntry(1, b)] + [LogEntry(1, c)];
    ThreeAtOnce(count, a, b, c);
    DriveSnoc(s, es, Invoke(d));
    DriveSnoc(s, es + [Invoke(d)], Observe);
    FourthInvokeClobbers(Drive(s, es), log, d);
    DroppedEntryFlaggedExactly(count, SameTick(a, b, c, d));
    hide Drive, StartCluster, StateMachineSafety;
    var x := Drive(s, es + [Invoke(d)]);
    assert Step(x, Observe).run.snapshots == x.run.snapshots + [Snap(x.nodes, x.live)];
  }
}
