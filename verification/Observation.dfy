/**
 The observed run of a cluster: by-value snapshots of every node and the client submit history.
 */
module Observation {

  datatype Role = Follower | Candidate | Leader

  datatype LogEntry = LogEntry(term: nat, value: string)

  datatype NodeSnapshot = NodeSnapshot(id: nat, live: bool, role: Role, term: nat, commit: nat, log: seq<LogEntry>)

  datatype ClusterSnapshot = ClusterSnapshot(nodes: seq<NodeSnapshot>)

  datatype Submit = Submit(value: string, invoked: int, returned: int, committed: bool, index: nat)

  datatype Run = Run(snapshots: seq<ClusterSnapshot>, submits: seq<Submit>)

  /** The committed part of a node's log. */
  function Committed(n: NodeSnapshot): seq<LogEntry> {
    n.log[..if n.commit <= |n.log| then n.commit else |n.log|]
  }

  /** A node never reports more committed than it holds. */
  ghost predicate CommitsHeld(r: Run) {
    forall s, n :: 0 <= s < |r.snapshots| && 0 <= n < |r.snapshots[s].nodes| ==>
      r.snapshots[s].nodes[n].commit <= |r.snapshots[s].nodes[n].log|
  }

  /** The committed prefixes of one snapshot, and of the first `n` snapshots, in observation order. */
  function NodePrefixes(nodes: seq<NodeSnapshot>): (ps: seq<seq<LogEntry>>)
    ensures |ps| == |nodes| && forall i :: 0 <= i < |nodes| ==> ps[i] == Committed(nodes[i])
  {
    seq(|nodes|, i requires 0 <= i < |nodes| => Committed(nodes[i]))
  }

  function Prefixes(snapshots: seq<ClusterSnapshot>): seq<seq<LogEntry>> {
    if snapshots == [] then []
    else Prefixes(snapshots[..|snapshots| - 1]) + NodePrefixes(snapshots[|snapshots| - 1].nodes)
  }

  ghost predicate AllPrefixOf(ps: seq<seq<LogEntry>>, s: seq<LogEntry>) {
    forall i :: 0 <= i < |ps| ==> ps[i] <= s
  }

  /** One sequence has every given log as a prefix. */
  ghost predicate OneSequence(ps: seq<seq<LogEntry>>) {
    exists s: seq<LogEntry> :: AllPrefixOf(ps, s)
  }

  lemma {:induction false} PrefixesHold(snapshots: seq<ClusterSnapshot>, s: nat, n: nat)
    requires s < |snapshots| && n < |snapshots[s].nodes|
    ensures Committed(snapshots[s].nodes[n]) in Prefixes(snapshots)
    decreases |snapshots|
  {
    var m := |snapshots| - 1;
    if s < m {
      PrefixesHold(snapshots[..m], s, n);
    } else {
      assert NodePrefixes(snapshots[m].nodes)[n] == Committed(snapshots[s].nodes[n]);
    }
  }

  lemma {:induction false} PrefixesOnly(snapshots: seq<ClusterSnapshot>, i: nat) returns (s: nat, n: nat)
    requires i < |Prefixes(snapshots)|
    ensures s < |snapshots| && n < |snapshots[s].nodes| && Prefixes(snapshots)[i] == Committed(snapshots[s].nodes[n])
    decreases |snapshots|
  {
    var m := |snapshots| - 1;
    var before := Prefixes(snapshots[..m]);
    if i < |before| {
      s, n := PrefixesOnly(snapshots[..m], i);
    } else {
      s, n := m, i - |before|;
    }
  }
}
