/**
 The conformance checkers, proved to decide the invariants they are named after over runs of any
 length, and the reconstruction of the final committed log.
 */
module Checkers {
  import opened Observation

  // ---- ElectionSafety ----------------------------------------------------------------------

  predicate LeadsAt(n: NodeSnapshot) {
    n.live && n.role == Leader
  }

  /** At every snapshot no two live leaders share a term. */
  ghost predicate ElectionSafety(r: Run) {
    forall s, i, j | 0 <= s < |r.snapshots| && 0 <= i < |r.snapshots[s].nodes| && 0 <= j < |r.snapshots[s].nodes| ::
      var (a, b) := (r.snapshots[s].nodes[i], r.snapshots[s].nodes[j]);
      i != j && a.live && b.live && a.role == Leader && b.role == Leader ==> a.term != b.term
  }

  ghost predicate OneLeaderPerTerm(nodes: seq<NodeSnapshot>, n: nat) {
    forall i, j :: 0 <= i < n && i < j < |nodes| && i < |nodes| && LeadsAt(nodes[i]) && LeadsAt(nodes[j]) ==>
      nodes[i].term != nodes[j].term
  }

  method CheckLeaders(nodes: seq<NodeSnapshot>) returns (ok: bool)
    ensures ok <==> OneLeaderPerTerm(nodes, |nodes|)
  {
    for i := 0 to |nodes|
      invariant OneLeaderPerTerm(nodes, i)
    {
      if LeadsAt(nodes[i]) {
        for j := i + 1 to |nodes|
          invariant forall k :: i < k < j && LeadsAt(nodes[k]) ==> nodes[i].term != nodes[k].term
        {
          if LeadsAt(nodes[j]) && nodes[i].term == nodes[j].term {
            return false;
          }
        }
      }
    }
    ok := true;
  }

  method CheckElectionSafety(r: Run) returns (ok: bool)
    ensures ok <==> ElectionSafety(r)
  {
    for s := 0 to |r.snapshots|
      invariant forall t :: 0 <= t < s ==> OneLeaderPerTerm(r.snapshots[t].nodes, |r.snapshots[t].nodes|)
    {
      var good := CheckLeaders(r.snapshots[s].nodes);
      if !good {
        return false;
      }
    }
    ok := true;
  }

  // ---- LogMatching -------------------------------------------------------------------------

  /** Two logs that agree on the term at an index are the same up to there. */
  ghost predicate Matching(a: seq<LogEntry>, b: seq<LogEntry>) {
    forall i :: 0 <= i < |a| && i < |b| && a[i].term == b[i].term ==> a[..i + 1] == b[..i + 1]
  }

  ghost predicate LogMatching(r: Run) {
    forall s, i, j :: 0 <= s < |r.snapshots| && 0 <= i < |r.snapshots[s].nodes| && 0 <= j < |r.snapshots[s].nodes| ==>
      Matching(r.snapshots[s].nodes[i].log, r.snapshots[s].nodes[j].log)
  }

  method CheckPair(a: seq<LogEntry>, b: seq<LogEntry>) returns (ok: bool)
    ensures ok <==> Matching(a, b)
  {
    var m := if |a| < |b| then |a| else |b|;
    for i := 0 to m
      invariant forall l :: 0 <= l < i && a[l].term == b[l].term ==> a[..l + 1] == b[..l + 1]
    {
      if a[i].term == b[i].term {
        for k := 0 to i + 1
          invariant forall l :: 0 <= l < k ==> a[l] == b[l]
        {
          if a[k] != b[k] {
            assert a[..i + 1][k] != b[..i + 1][k];
            return false;
          }
        }
        assert a[..i + 1] == b[..i + 1];
      }
    }
    ok := true;
  }

  lemma MatchingSymmetric(a: seq<LogEntry>, b: seq<LogEntry>)
    requires Matching(a, b)
    ensures Matching(b, a)
  {}

  method CheckLogs(nodes: seq<NodeSnapshot>) returns (ok: bool)
    ensures ok <==> forall i, j :: 0 <= i < |nodes| && 0 <= j < |nodes| ==> Matching(nodes[i].log, nodes[j].log)
  {
    for a := 0 to |nodes|
      invariant forall i, j :: 0 <= i < a && i < j < |nodes| ==> Matching(nodes[i].log, nodes[j].log)
    {
      for b := a + 1 to |nodes|
        invariant forall j :: a < j < b ==> Matching(nodes[a].log, nodes[j].log)
      {
        var good := CheckPair(nodes[a].log, nodes[b].log);
        if !good {
          return false;
        }
      }
    }
    forall i, j | 0 <= i < |nodes| && 0 <= j < |nodes| ensures Matching(nodes[i].log, nodes[j].log) {
      if j < i { MatchingSymmetric(nodes[j].log, nodes[i].log); }
    }
    ok := true;
  }

  method CheckLogMatching(r: Run) returns (ok: bool)
    ensures ok <==> LogMatching(r)
  {
    hide Matching;
    for s := 0 to |r.snapshots|
      invariant forall t, i, j :: 0 <= t < s && 0 <= i < |r.snapshots[t].nodes| && 0 <= j < |r.snapshots[t].nodes| ==>
        Matching(r.snapshots[t].nodes[i].log, r.snapshots[t].nodes[j].log)
    {
      var good := CheckLogs(r.snapshots[s].nodes);
      if !good {
        return false;
      }
    }
    ok := true;
  }

  // ---- folding committed prefixes ----------------------------------------------------------

  const BLANK := LogEntry(0, "")

  function Falses(n: nat): (s: seq<bool>)
    ensures |s| == n && forall i :: 0 <= i < n ==> !s[i]
  {
    seq(n, _ => false)
  }

  function Blanks(n: nat): (s: seq<LogEntry>)
    ensures |s| == n
  {
    seq(n, _ => BLANK)
  }

  /** The run-wide committed history: the entries seen so far and which slots were ever filled. */
  datatype History = History(entries: seq<LogEntry>, known: seq<bool>)

  /** No slot below the end is unfilled. */
  ghost predicate Gapless(h: History) {
    |h.known| == |h.entries| && forall i :: 0 <= i < |h.known| ==> h.known[i]
  }

  ghost predicate Comparable(a: seq<LogEntry>, b: seq<LogEntry>) {
    a <= b || b <= a
  }

  function Longer(a: seq<LogEntry>, b: seq<LogEntry>): seq<LogEntry> {
    if |a| >= |b| then a else b
  }

  /** Slots already known keep their first entry; the rest is filled in. */
  function Filled(h: seq<LogEntry>, p: seq<LogEntry>): seq<LogEntry> {
    if |p| <= |h| then h else h + p[|h|..]
  }

  /** The resize-and-fill loop over one node's committed prefix, shared by the two safety checkers and
      the log reconstruction: an unknown slot is filled; a known one that differs is a conflict, and
      keeps its first entry. */
  method Absorb(h: History, n: NodeSnapshot) returns (agree: bool, r: History)
    requires Gapless(h)
    ensures Gapless(r)
    ensures agree <==> Comparable(h.entries, Committed(n))
    ensures agree ==> r.entries == Longer(h.entries, Committed(n))
    ensures r.entries == Filled(h.entries, Committed(n))
    ensures agree <==> forall k :: 0 <= k < |h.entries| && Commits(n, k) ==> h.entries[k] == n.log[k]
    ensures h.entries <= r.entries && forall k :: |h.entries| <= k < |r.entries| ==> r.entries[k] == n.log[k]
    ensures forall k :: Commits(n, k) ==> k < |r.entries|
    ensures forall k :: |h.entries| <= k < |r.entries| ==> Commits(n, k)
  {
    agree, r := true, h;
    var i := 1;
    while i <= n.commit && i <= |n.log|
      invariant 1 <= i <= |Committed(n)| + 1
      invariant Gapless(r) && |r.entries| == if |h.entries| >= i - 1 then |h.entries| else i - 1
      invariant h.entries <= r.entries
      invariant forall k :: |h.entries| <= k < |r.entries| ==> r.entries[k] == n.log[k]
      invariant agree <==> forall k :: 0 <= k < i - 1 ==> r.entries[k] == n.log[k]
      decreases |n.log| + 1 - i
    {
      var e := n.log[i - 1];
      if i > |r.entries| {
        r := History(r.entries + Blanks(i - |r.entries|), r.known + Falses(i - |r.known|));
      }
      if !r.known[i - 1] {
        r := History(r.entries[i - 1 := e], r.known[i - 1 := true]);
      } else if r.entries[i - 1] != e {
        agree := false;
      }
      i := i + 1;
    }
    AbsorbResult(h.entries, r.entries, Committed(n), agree);
  }

  lemma AbsorbResult(h: seq<LogEntry>, r: seq<LogEntry>, p: seq<LogEntry>, agree: bool)
    requires h <= r && |r| == if |h| >= |p| then |h| else |p|
    requires forall k :: |h| <= k < |r| ==> r[k] == p[k]
    requires agree <==> forall k :: 0 <= k < |p| ==> r[k] == p[k]
    ensures agree <==> Comparable(h, p)
    ensures agree ==> r == Longer(h, p)
  {
    if agree {
      if |h| >= |p| { assert r == h && p == h[..|p|]; } else { assert r == p && h == p[..|h|]; }
    } else {
      var k :| 0 <= k < |p| && r[k] != p[k];
      assert k < |h| && h[k] != p[k];
      assert !(h <= p) && !(p <= h);
    }
  }

  /** `s` is what the prefixes `ps` add up to: all are prefixes of it and it is one of them. */
  ghost predicate SumOf(s: seq<LogEntry>, ps: seq<seq<LogEntry>>) {
    AllPrefixOf(ps, s) && (s == [] || s in ps)
  }

  lemma SumUnique(a: seq<LogEntry>, b: seq<LogEntry>, ps: seq<seq<LogEntry>>)
    requires SumOf(a, ps) && SumOf(b, ps)
    ensures a == b
  {
    assert a <= b && b <= a;
  }

  lemma Incomparable(a: seq<LogEntry>, b: seq<LogEntry>, ps: seq<seq<LogEntry>>)
    requires a in ps && b in ps && !Comparable(a, b)
    ensures !OneSequence(ps)
  {
    forall s: seq<LogEntry> ensures !AllPrefixOf(ps, s) {
      if AllPrefixOf(ps, s) { PrefixesOfOne(a, b, s); }
    }
  }

  lemma PrefixesOfOne(a: seq<LogEntry>, b: seq<LogEntry>, s: seq<LogEntry>)
    requires a <= s && b <= s
    ensures Comparable(a, b)
  {
    if |a| <= |b| { assert b[..|a|] == a; } else { assert a[..|b|] == b; }
  }

  lemma SumGrows(s: seq<LogEntry>, ps: seq<seq<LogEntry>>, p: seq<LogEntry>)
    requires SumOf(s, ps)
    ensures Comparable(s, p) ==> SumOf(Longer(s, p), ps + [p])
    ensures !Comparable(s, p) ==> !OneSequence(ps + [p])
  {
    var all := ps + [p];
    assert all[|ps|] == p;
    if Comparable(s, p) {
      var t := Longer(s, p);
      forall i | 0 <= i < |all| ensures all[i] <= t {
        if i < |ps| { assert ps[i] <= s <= t; }
      }
      if s in ps { assert s in all; }
    } else {
      assert s in ps && s in all;
      Incomparable(s, p, all);
    }
  }

  lemma SmallerStillOne(a: seq<seq<LogEntry>>, b: seq<seq<LogEntry>>)
    requires OneSequence(a + b)
    ensures OneSequence(a)
  {
    var s :| AllPrefixOf(a + b, s);
    assert forall i :: 0 <= i < |a| ==> a[i] == (a + b)[i];
    assert AllPrefixOf(a, s);
  }

  lemma SumIsOne(s: seq<LogEntry>, ps: seq<seq<LogEntry>>)
    requires SumOf(s, ps)
    ensures OneSequence(ps)
  {}

  /** Fold one snapshot's committed prefixes into the history, stopping at the first conflict. */
  method FoldSnapshot(h: History, nodes: seq<NodeSnapshot>, ghost before: seq<seq<LogEntry>>)
    returns (agree: bool, r: History)
    requires Gapless(h) && SumOf(h.entries, before)
    ensures Gapless(r)
    ensures agree <==> OneSequence(before + NodePrefixes(nodes))
    ensures agree ==> SumOf(r.entries, before + NodePrefixes(nodes))
  {
    hide SumOf, OneSequence, Comparable, Committed;
    ghost var ps := NodePrefixes(nodes);
    r := h;
    assert before + ps[..0] == before;
    for n := 0 to |nodes|
      invariant Gapless(r) && SumOf(r.entries, before + ps[..n])
    {
      SumGrows(r.entries, before + ps[..n], ps[n]);
      assert before + ps[..n] + [ps[n]] == before + ps[..n + 1];
      agree, r := Absorb(r, nodes[n]);
      if !agree {
        if OneSequence(before + ps) {
          assert before + ps == (before + ps[..n + 1]) + ps[n + 1..];
          SmallerStillOne(before + ps[..n + 1], ps[n + 1..]);
        }
        return;
      }
    }
    assert before + ps[..|nodes|] == before + ps;
    SumIsOne(r.entries, before + ps);
    agree := true;
  }

  lemma PrefixesStep(snapshots: seq<ClusterSnapshot>, s: nat)
    requires s < |snapshots|
    ensures Prefixes(snapshots[..s + 1]) == Prefixes(snapshots[..s]) + NodePrefixes(snapshots[s].nodes)
  {
    assert snapshots[..s + 1][..s] == snapshots[..s];
  }

  lemma {:induction false} PrefixesFrom(snapshots: seq<ClusterSnapshot>, s: nat) returns (rest: seq<seq<LogEntry>>)
    requires s <= |snapshots|
    ensures Prefixes(snapshots) == Prefixes(snapshots[..s]) + rest
    decreases |snapshots| - s
  {
    if s == |snapshots| {
      assert snapshots[..s] == snapshots;
      rest := [];
      assert Prefixes(snapshots) + [] == Prefixes(snapshots);
    } else {
      var tail := PrefixesFrom(snapshots, s + 1);
      PrefixesStep(snapshots, s);
      rest := NodePrefixes(snapshots[s].nodes) + tail;
      assert Prefixes(snapshots[..s]) + NodePrefixes(snapshots[s].nodes) + tail == Prefixes(snapshots[..s]) + rest;
    }
  }

  /** A conflict among the first snapshots is a conflict of the whole run. */
  lemma EarlyConflict(snapshots: seq<ClusterSnapshot>, s: nat)
    requires s <= |snapshots| && !OneSequence(Prefixes(snapshots[..s]))
    ensures !OneSequence(Prefixes(snapshots))
  {
    var rest := PrefixesFrom(snapshots, s);
    if OneSequence(Prefixes(snapshots)) { SmallerStillOne(Prefixes(snapshots[..s]), rest); }
  }

  // ---- StateMachineSafety ------------------------------------------------------------------

  /** The run commits one single history: what the checker is there to establish. */
  ghost predicate StateMachineSafety(r: Run) {
    OneSequence(Prefixes(r.snapshots))
  }

  /** The node has committed slot `k` and holds it. */
  ghost predicate Commits(n: NodeSnapshot, k: int) {
    0 <= k < n.commit && k < |n.log|
  }

  /** The node at position `n` of snapshot `s` has committed slot `k`. */
  ghost predicate CommitsAt(r: Run, s: int, n: int, k: int) {
    0 <= s < |r.snapshots| && 0 <= n < |r.snapshots[s].nodes| && Commits(r.snapshots[s].nodes[n], k)
  }

  ghost function EntryAt(r: Run, s: int, n: int, k: int): LogEntry
    requires CommitsAt(r, s, n, k)
  {
    r.snapshots[s].nodes[n].log[k]
  }

  /** Whenever two nodes, in whatever snapshots, have both committed a slot, they hold the same entry there. */
  ghost predicate CommittedSlotsAgree(r: Run) {
    forall s, i, t, j, k :: CommitsAt(r, s, i, k) && CommitsAt(r, t, j, k) ==> EntryAt(r, s, i, k) == EntryAt(r, t, j, k)
  }

  lemma CommittedIs(n: NodeSnapshot, k: int)
    ensures 0 <= k < |Committed(n)| <==> Commits(n, k)
    ensures Commits(n, k) ==> Committed(n)[k] == n.log[k]
  {}

  lemma ComparableExactly(a: seq<LogEntry>, b: seq<LogEntry>)
    ensures Comparable(a, b) <==> forall k :: 0 <= k < |a| && k < |b| ==> a[k] == b[k]
  {
    if forall k :: 0 <= k < |a| && k < |b| ==> a[k] == b[k] {
      if |a| <= |b| { assert a == b[..|a|]; } else { assert b == a[..|b|]; }
    }
  }

  lemma {:induction false} PairwiseHaveASum(ps: seq<seq<LogEntry>>) returns (s: seq<LogEntry>)
    requires forall i, j :: 0 <= i < |ps| && 0 <= j < |ps| ==> Comparable(ps[i], ps[j])
    ensures SumOf(s, ps)
    decreases |ps|
  {
    if ps == [] {
      s := [];
    } else {
      var n := |ps| - 1;
      var init := ps[..n];
      assert ps == init + [ps[n]];
      var t := PairwiseHaveASum(init);
      assert Comparable(t, ps[n]);
      SumGrows(t, init, ps[n]);
      s := Longer(t, ps[n]);
    }
  }

  /** One committed history means exactly that commonly committed slots agree. */
  lemma SafetyIsSlotAgreement(r: Run)
    ensures StateMachineSafety(r) <==> CommittedSlotsAgree(r)
  {
    if StateMachineSafety(r) { SafeSlotsAgree(r); }
    if CommittedSlotsAgree(r) { AgreeingSlotsAreSafe(r); }
  }

  lemma SafeSlotsAgree(r: Run)
    requires StateMachineSafety(r)
    ensures CommittedSlotsAgree(r)
  {
    hide Prefixes, Committed, Comparable;
    var q :| AllPrefixOf(Prefixes(r.snapshots), q);
    forall s, i, t, j, k | CommitsAt(r, s, i, k) && CommitsAt(r, t, j, k) ensures EntryAt(r, s, i, k) == EntryAt(r, t, j, k) {
      var a, b := r.snapshots[s].nodes[i], r.snapshots[t].nodes[j];
      PrefixesHold(r.snapshots, s, i);
      PrefixesHold(r.snapshots, t, j);
      CommittedIs(a, k);
      CommittedIs(b, k);
      assert Committed(a)[k] == q[k] == Committed(b)[k];
    }
  }

  lemma AgreeingSlotsAreSafe(r: Run)
    requires CommittedSlotsAgree(r)
    ensures StateMachineSafety(r)
  {
    var ps := Prefixes(r.snapshots);
    forall x, y | 0 <= x < |ps| && 0 <= y < |ps| ensures Comparable(ps[x], ps[y]) {
      var s, i := PrefixesOnly(r.snapshots, x);
      var t, j := PrefixesOnly(r.snapshots, y);
      AgreeingNodesComparable(r, s, i, t, j);
    }
    var s := PairwiseHaveASum(ps);
  }

  lemma AgreeingNodesComparable(r: Run, s: nat, i: nat, t: nat, j: nat)
    requires CommittedSlotsAgree(r)
    requires s < |r.snapshots| && i < |r.snapshots[s].nodes| && t < |r.snapshots| && j < |r.snapshots[t].nodes|
    ensures Comparable(Committed(r.snapshots[s].nodes[i]), Committed(r.snapshots[t].nodes[j]))
  {
    hide Committed, Comparable;
    var a, b := r.snapshots[s].nodes[i], r.snapshots[t].nodes[j];
    forall k: nat | k < |Committed(a)| && k < |Committed(b)| ensures Committed(a)[k] == Committed(b)[k] {
      CommittedIs(a, k);
      CommittedIs(b, k);
      assert CommitsAt(r, s, i, k) && CommitsAt(r, t, j, k);
    }
    ComparableExactly(Committed(a), Committed(b));
  }

  ghost predicate PairwiseComparable(ps: seq<seq<LogEntry>>, n: nat) {
    forall i, j :: 0 <= i < n && i < j < |ps| && i < |ps| ==> Comparable(ps[i], ps[j])
  }

  method CheckCommon(a: NodeSnapshot, b: NodeSnapshot) returns (ok: bool)
    requires a.commit <= |a.log| && b.commit <= |b.log|
    ensures ok <==> Comparable(Committed(a), Committed(b))
  {
    var common := if a.commit < b.commit then a.commit else b.commit;
    for i := 1 to common + 1
      invariant forall k :: 0 <= k < i - 1 ==> a.log[k] == b.log[k]
    {
      if a.log[i - 1] != b.log[i - 1] {
        assert Committed(a)[i - 1] != Committed(b)[i - 1];
        return false;
      }
    }
    assert Committed(a)[..common] == Committed(b)[..common];
    ok := true;
  }

  /** The pointwise half: commonly committed indices hold equal entries within a snapshot. */
  method CheckPointwise(nodes: seq<NodeSnapshot>) returns (ok: bool)
    requires forall n :: 0 <= n < |nodes| ==> nodes[n].commit <= |nodes[n].log|
    ensures ok <==> PairwiseComparable(NodePrefixes(nodes), |nodes|)
  {
    hide Comparable, Committed;
    ghost var ps := NodePrefixes(nodes);
    for a := 0 to |nodes|
      invariant PairwiseComparable(ps, a)
    {
      for b := a + 1 to |nodes|
        invariant forall j :: a < j < b ==> Comparable(ps[a], ps[j])
      {
        var good := CheckCommon(nodes[a], nodes[b]);
        if !good {
          return false;
        }
      }
    }
    ok := true;
  }

  lemma PointwiseConflict(before: seq<seq<LogEntry>>, ps: seq<seq<LogEntry>>)
    requires !PairwiseComparable(ps, |ps|)
    ensures !OneSequence(before + ps)
  {
    var i, j :| 0 <= i < |ps| && i < j < |ps| && !Comparable(ps[i], ps[j]);
    assert (before + ps)[|before| + i] == ps[i] && (before + ps)[|before| + j] == ps[j];
    Incomparable(ps[i], ps[j], before + ps);
  }

  /** The checker accepts a run exactly when one sequence has every node's committed prefix, at every
      snapshot, as a prefix: when no two nodes, at any two snapshots, hold different entries in a slot both
      have committed. The pointwise half never rejects anything the fold would accept. */
  method CheckStateMachineSafety(r: Run) returns (ok: bool)
    requires CommitsHeld(r)
    ensures ok <==> StateMachineSafety(r)
    ensures ok <==> CommittedSlotsAgree(r)
  {
    hide OneSequence, SumOf, PairwiseComparable, CommittedSlotsAgree;
    SafetyIsSlotAgreement(r);
    var h := History([], []);
    assert SumOf([], []) by { EmptySum(); }
    for s := 0 to |r.snapshots|
      invariant Gapless(h) && SumOf(h.entries, Prefixes(r.snapshots[..s]))
    {
      var nodes := r.snapshots[s].nodes;
      ghost var before := Prefixes(r.snapshots[..s]);
      PrefixesStep(r.snapshots, s);
      var pointwise := CheckPointwise(nodes);
      if !pointwise {
        PointwiseConflict(before, NodePrefixes(nodes));
        EarlyConflict(r.snapshots, s + 1);
        return false;
      }
      var agree, h' := FoldSnapshot(h, nodes, before);
      if !agree {
        EarlyConflict(r.snapshots, s + 1);
        return false;
      }
      h := h';
    }
    assert r.snapshots[..|r.snapshots|] == r.snapshots;
    SumIsOne(h.entries, Prefixes(r.snapshots));
    ok := true;
  }

  lemma EmptySum()
    ensures SumOf([], [])
  {}

  // ---- LeaderAppendOnly --------------------------------------------------------------------

  /** The first node with the id, or the length. */
  function Find(nodes: seq<NodeSnapshot>, id: nat): (i: nat)
    ensures i <= |nodes|
    ensures i < |nodes| ==> nodes[i].id == id
    ensures forall j :: 0 <= j < i ==> nodes[j].id != id
  {
    if nodes == [] then 0
    else if nodes[0].id == id then 0
    else
      var k := Find(nodes[1..], id);
      assert forall j :: 1 <= j < k + 1 ==> nodes[j] == nodes[1..][j - 1];
      k + 1
  }

  /** A leader that stays leader in its term only appends. */
  ghost predicate AppendOnly(p: NodeSnapshot, cur: seq<NodeSnapshot>) {
    var c := Find(cur, p.id);
    c < |cur| && p.role == Leader && cur[c].role == Leader && p.term == cur[c].term ==> p.log <= cur[c].log
  }

  ghost predicate StepAppendOnly(prev: seq<NodeSnapshot>, cur: seq<NodeSnapshot>) {
    forall n :: 0 <= n < |prev| ==> AppendOnly(prev[n], cur)
  }

  ghost predicate AppendOnlyInto(r: Run, s: nat) {
    0 < s < |r.snapshots| ==> StepAppendOnly(r.snapshots[s - 1].nodes, r.snapshots[s].nodes)
  }

  ghost predicate LeaderAppendOnly(r: Run) {
    forall s: nat :: AppendOnlyInto(r, s)
  }

  method CheckAppendOnly(p: NodeSnapshot, cur: seq<NodeSnapshot>) returns (ok: bool)
    ensures ok <==> AppendOnly(p, cur)
  {
    var c := Find(cur, p.id);
    if c == |cur| || p.role != Leader || cur[c].role != Leader || p.term != cur[c].term {
      return true;
    }
    if |cur[c].log| < |p.log| {
      return false;
    }
    for i := 0 to |p.log|
      invariant forall k :: 0 <= k < i ==> p.log[k] == cur[c].log[k]
    {
      if p.log[i] != cur[c].log[i] {
        return false;
      }
    }
    ok := true;
  }

  method CheckLeaderAppendOnly(r: Run) returns (ok: bool)
    ensures ok <==> LeaderAppendOnly(r)
  {
    hide AppendOnly;
    var s := 1;
    while s < |r.snapshots|
      invariant forall t: nat :: t < s ==> AppendOnlyInto(r, t)
    {
      var prev := r.snapshots[s - 1].nodes;
      for n := 0 to |prev|
        invariant forall k :: 0 <= k < n ==> AppendOnly(prev[k], r.snapshots[s].nodes)
      {
        var good := CheckAppendOnly(prev[n], r.snapshots[s].nodes);
        if !good {
          assert !AppendOnlyInto(r, s);
          return false;
        }
      }
      s := s + 1;
    }
    ok := true;
  }

  // ---- Linearizability ---------------------------------------------------------------------

  /** A committed submit holds its slot of the committed sequence, within its own time window. */
  ghost predicate Linearized(sub: Submit, s: seq<LogEntry>) {
    sub.committed ==> sub.invoked <= sub.returned && 0 < sub.index <= |s| && s[sub.index - 1].value == sub.value
  }

  ghost predicate AllLinearized(submits: seq<Submit>, s: seq<LogEntry>) {
    forall i :: 0 <= i < |submits| ==> Linearized(submits[i], s)
  }

  /** The committed log is one total order and every committed submit sits in it where it says. */
  ghost predicate Linearizable(r: Run) {
    exists s :: SumOf(s, Prefixes(r.snapshots)) && AllLinearized(r.submits, s)
  }

  /** The node at position `n` of snapshot `s` has committed the submit's value in the slot it claims. */
  ghost predicate HoldsSubmit(r: Run, s: int, n: int, sub: Submit) {
    CommitsAt(r, s, n, sub.index - 1) && EntryAt(r, s, n, sub.index - 1).value == sub.value
  }

  /** The submit did not return before it was invoked, and some node of some snapshot holds it. */
  ghost predicate Claims(r: Run, sub: Submit) {
    sub.invoked <= sub.returned && exists s, n :: HoldsSubmit(r, s, n, sub)
  }

  /** Linearizability, read off the nodes: commonly committed slots agree and every committed submit is found
      where it claims to be. */
  lemma LinearizableIsSlotAgreement(r: Run)
    ensures Linearizable(r) <==>
            && CommittedSlotsAgree(r)
            && forall i :: 0 <= i < |r.submits| && r.submits[i].committed ==> Claims(r, r.submits[i])
  {
    hide CommittedSlotsAgree, Prefixes;
    SafetyIsSlotAgreement(r);
    TotalOrderHalvesAgree(r);
    if StateMachineSafety(r) {
      var q := FirstSeen(Prefixes(r.snapshots));
      FirstSeenIsTheSequence(Prefixes(r.snapshots));
      hide SumOf, StateMachineSafety, Linearizable, FirstSeen, Claims, Linearized;
      LinearizableBy(r, q);
      forall i | 0 <= i < |r.submits| && r.submits[i].committed
        ensures Linearized(r.submits[i], q) <==> Claims(r, r.submits[i])
      {
        SlotIsClaimed(r, q, r.submits[i]);
      }
      forall i | 0 <= i < |r.submits| && !r.submits[i].committed ensures Linearized(r.submits[i], q) {
        UncommittedIsLinearized(r.submits[i], q);
      }
    }
  }

  lemma UncommittedIsLinearized(sub: Submit, q: seq<LogEntry>)
    requires !sub.committed
    ensures Linearized(sub, q)
  {}

  lemma SlotIsClaimed(r: Run, q: seq<LogEntry>, sub: Submit)
    requires SumOf(q, Prefixes(r.snapshots)) && sub.committed
    ensures Linearized(sub, q) <==> Claims(r, sub)
  {
    hide Prefixes, Committed;
    if Linearized(sub, q) {
      var s, n := SequenceWasSeen(r.snapshots, q);
      CommittedIs(r.snapshots[s].nodes[n], sub.index - 1);
      assert HoldsSubmit(r, s, n, sub);
    }
    forall s, n | HoldsSubmit(r, s, n, sub)
      ensures 0 < sub.index <= |q| && EntryAt(r, s, n, sub.index - 1) == q[sub.index - 1]
    {
      PrefixesHold(r.snapshots, s, n);
      CommittedIs(r.snapshots[s].nodes[n], sub.index - 1);
    }
  }

  /** Fold every committed prefix of the run; the total-order half of Linearizability. */
  method FoldRun(snapshots: seq<ClusterSnapshot>) returns (agree: bool, h: History)
    ensures Gapless(h)
    ensures agree <==> OneSequence(Prefixes(snapshots))
    ensures agree ==> SumOf(h.entries, Prefixes(snapshots))
  {
    hide OneSequence, SumOf;
    h := History([], []);
    assert SumOf([], []) by { EmptySum(); }
    for s := 0 to |snapshots|
      invariant Gapless(h) && SumOf(h.entries, Prefixes(snapshots[..s]))
    {
      PrefixesStep(snapshots, s);
      agree, h := FoldSnapshot(h, snapshots[s].nodes, Prefixes(snapshots[..s]));
      if !agree {
        EarlyConflict(snapshots, s + 1);
        return;
      }
    }
    assert snapshots[..|snapshots|] == snapshots;
    SumIsOne(h.entries, Prefixes(snapshots));
    agree := true;
  }

  /** The checker accepts exactly the linearizable runs: commonly committed slots agree and every committed
      submit is found committed in its slot. */
  method CheckLinearizability(r: Run) returns (ok: bool)
    ensures ok <==> Linearizable(r)
    ensures ok <==>
            && CommittedSlotsAgree(r)
            && forall i :: 0 <= i < |r.submits| && r.submits[i].committed ==> Claims(r, r.submits[i])
  {
    hide OneSequence, CommittedSlotsAgree, Claims;
    LinearizableIsSlotAgreement(r);
    var agree, h := FoldRun(r.snapshots);
    if !agree {
      if Linearizable(r) {
        var s :| SumOf(s, Prefixes(r.snapshots));
        SumIsOne(s, Prefixes(r.snapshots));
      }
      return false;
    }
    hide SumOf;
    var seqn := h.entries;
    for i := 0 to |r.submits|
      invariant forall k :: 0 <= k < i ==> Linearized(r.submits[k], seqn)
    {
      var sub := r.submits[i];
      if sub.committed {
        if sub.invoked > sub.returned || sub.index == 0 || sub.index > |seqn| || !h.known[sub.index - 1]
           || seqn[sub.index - 1].value != sub.value {
          NotLinearizable(r, seqn, i);
          return false;
        }
      }
    }
    ok := true;
  }

  lemma NotLinearizable(r: Run, s: seq<LogEntry>, i: nat)
    requires SumOf(s, Prefixes(r.snapshots)) && i < |r.submits| && !Linearized(r.submits[i], s)
    ensures !Linearizable(r)
  {
    forall t | SumOf(t, Prefixes(r.snapshots)) ensures t == s { SumUnique(t, s, Prefixes(r.snapshots)); }
  }

  /** The node has committed the value at the index. */
  predicate HasCommitted(n: NodeSnapshot, index: nat, value: string) {
    0 < index <= |Committed(n)| && Committed(n)[index - 1].value == value
  }

  /** In a run it accepts, two committed submits at one index carry one value, and each committed submit
      is found committed, with its value, by some node of some snapshot. */
  lemma AcceptedSubmitsAgree(r: Run, i: nat, j: nat)
    requires Linearizable(r) && i < |r.submits| && j < |r.submits|
    requires r.submits[i].committed && r.submits[j].committed && r.submits[i].index == r.submits[j].index
    ensures r.submits[i].value == r.submits[j].value
    ensures exists s, n :: 0 <= s < |r.snapshots| && 0 <= n < |r.snapshots[s].nodes| &&
              HasCommitted(r.snapshots[s].nodes[n], r.submits[i].index, r.submits[i].value)
  {
    hide SumOf;
    var q :| SumOf(q, Prefixes(r.snapshots)) && AllLinearized(r.submits, q);
    assert Linearized(r.submits[i], q) && Linearized(r.submits[j], q);
    var s, n := SequenceWasSeen(r.snapshots, q);
    assert HasCommitted(r.snapshots[s].nodes[n], r.submits[i].index, r.submits[i].value);
  }

  /** A non-empty committed sequence is what some node of some snapshot has committed. */
  lemma SequenceWasSeen(snapshots: seq<ClusterSnapshot>, q: seq<LogEntry>) returns (s: nat, n: nat)
    requires SumOf(q, Prefixes(snapshots)) && q != []
    ensures s < |snapshots| && n < |snapshots[s].nodes| && Committed(snapshots[s].nodes[n]) == q
  {
    hide Prefixes, Committed;
    var k :| 0 <= k < |Prefixes(snapshots)| && Prefixes(snapshots)[k] == q;
    s, n := PrefixesOnly(snapshots, k);
  }

  // ---- the final committed log -------------------------------------------------------------

  /** The entries first seen committed at each index, over the prefixes in observation order. */
  function FirstSeen(ps: seq<seq<LogEntry>>): seq<LogEntry> {
    if ps == [] then [] else Filled(FirstSeen(ps[..|ps| - 1]), ps[|ps| - 1])
  }

  lemma FirstSeenSnoc(ps: seq<seq<LogEntry>>, p: seq<LogEntry>)
    ensures FirstSeen(ps + [p]) == Filled(FirstSeen(ps), p)
  {
    assert (ps + [p])[..|ps|] == ps;
  }

  /** The node at position `n` of snapshot `s` is the first, in observation order, to have committed slot `k`. */
  ghost predicate FirstToCommit(r: Run, s: int, n: int, k: int) {
    CommitsAt(r, s, n, k) && forall t, m :: (t < s || (t == s && m < n)) ==> !CommitsAt(r, t, m, k)
  }

  /** The entry is the one that the first node to have committed slot `k` holds there. */
  ghost predicate FirstCommitted(r: Run, k: int, e: LogEntry) {
    exists s, n :: FirstToCommit(r, s, n, k) && e == EntryAt(r, s, n, k)
  }

  /** `finalize_committed_log`: fill every slot with the first committed entry seen there. Exactly the slots
      some node has committed are in the log, each with the entry of the first node that committed it. */
  method FinalizeCommittedLog(r: Run) returns (log: seq<LogEntry>)
    ensures log == FirstSeen(Prefixes(r.snapshots))
    ensures forall s, n, k :: CommitsAt(r, s, n, k) ==> k < |log|
    ensures forall k :: 0 <= k < |log| ==> FirstCommitted(r, k, log[k])
  {
    hide Committed, Comparable, Filled, FirstSeen, FirstCommitted;
    var h := History([], []);
    assert FirstSeen([]) == [] by { NothingSeen(); }
    for s := 0 to |r.snapshots|
      invariant Gapless(h) && h.entries == FirstSeen(Prefixes(r.snapshots[..s]))
    {
      var nodes := r.snapshots[s].nodes;
      ghost var before, ps := Prefixes(r.snapshots[..s]), NodePrefixes(nodes);
      PrefixesStep(r.snapshots, s);
      assert before + ps[..0] == before;
      for n := 0 to |nodes|
        invariant Gapless(h) && h.entries == FirstSeen(before + ps[..n])
      {
        FirstSeenSnoc(before + ps[..n], ps[n]);
        assert before + ps[..n] + [ps[n]] == before + ps[..n + 1];
        var _, h' := Absorb(h, nodes[n]);
        h := h';
      }
      assert before + ps[..|nodes|] == before + ps;
    }
    assert r.snapshots[..|r.snapshots|] == r.snapshots;
    log := h.entries;
    forall s, n, k | CommitsAt(r, s, n, k) ensures k < |log| { CommittedIsSeen(r, s, n, k); }
    forall k | 0 <= k < |log| ensures FirstCommitted(r, k, log[k]) { SeenIsFirst(r, k); }
  }

  lemma SeenIsFirst(r: Run, k: nat)
    requires k < |FirstSeen(Prefixes(r.snapshots))|
    ensures FirstCommitted(r, k, FirstSeen(Prefixes(r.snapshots))[k])
  {
    hide FirstSeen, Prefixes;
    var s, n := FirstSeenWas(r, k);
  }

  lemma CommittedIsSeen(r: Run, s: int, n: int, k: int)
    requires CommitsAt(r, s, n, k)
    ensures k < |FirstSeen(Prefixes(r.snapshots))|
  {
    hide Prefixes, Committed, FirstSeen;
    PrefixesHold(r.snapshots, s, n);
    CommittedIs(r.snapshots[s].nodes[n], k);
    FirstSeenLength(Prefixes(r.snapshots));
  }

  /** Prefixes seen later fill only what is still open, the first of them to reach a slot deciding it. */
  lemma {:induction false} FirstSeenConcat(before: seq<seq<LogEntry>>, now: seq<seq<LogEntry>>, k: nat) returns (n: nat)
    requires k < |FirstSeen(before + now)|
    ensures k < |FirstSeen(before)| ==> FirstSeen(before + now)[k] == FirstSeen(before)[k]
    ensures k >= |FirstSeen(before)| ==>
              && n < |now| && k < |now[n]| && FirstSeen(before + now)[k] == now[n][k]
              && forall i :: 0 <= i < n ==> |now[i]| <= k
    decreases |now|
  {
    n := 0;
    if now == [] {
      assert before + now == before;
    } else {
      var m := |now| - 1;
      assert (before + now) == (before + now[..m]) + [now[m]];
      FirstSeenSnoc(before + now[..m], now[m]);
      if k < |FirstSeen(before + now[..m])| {
        n := FirstSeenConcat(before, now[..m], k);
      } else {
        n := m;
        FirstSeenLength(before + now[..m]);
        forall i | 0 <= i < m ensures |now[i]| <= k { assert (before + now[..m])[|before| + i] == now[i]; }
        FirstSeenKeeps(before, now[..m]);
      }
    }
  }

  lemma {:induction false} FirstSeenKeeps(before: seq<seq<LogEntry>>, now: seq<seq<LogEntry>>)
    ensures FirstSeen(before) <= FirstSeen(before + now)
    decreases |now|
  {
    if now == [] {
      assert before + now == before;
    } else {
      var m := |now| - 1;
      assert (before + now) == (before + now[..m]) + [now[m]];
      FirstSeenSnoc(before + now[..m], now[m]);
      FirstSeenKeeps(before, now[..m]);
    }
  }

  lemma {:induction false} FirstSeenWas(r: Run, k: nat) returns (s: nat, n: nat)
    requires k < |FirstSeen(Prefixes(r.snapshots))|
    ensures FirstToCommit(r, s, n, k) && FirstSeen(Prefixes(r.snapshots))[k] == EntryAt(r, s, n, k)
    decreases |r.snapshots|
  {
    hide FirstSeen, Committed;
    assert r.snapshots != [] by { NothingSeen(); }
    var m := |r.snapshots| - 1;
    var early := Run(r.snapshots[..m], r.submits);
    var nodes := r.snapshots[m].nodes;
    var i := FirstSeenConcat(Prefixes(early.snapshots), NodePrefixes(nodes), k);
    if k < |FirstSeen(Prefixes(early.snapshots))| {
      s, n := FirstSeenWas(early, k);
      EarlierRun(r, m, s, n, k);
    } else {
      s, n := m, i;
      CommittedIs(nodes[n], k);
      forall t, j | t < s ensures !CommitsAt(r, t, j, k) {
        if CommitsAt(early, t, j, k) { CommittedIsSeen(early, t, j, k); }
      }
      forall j | 0 <= j < n ensures !CommitsAt(r, s, j, k) { CommittedIs(nodes[j], k); }
    }
  }

  lemma EarlierRun(r: Run, m: nat, s: int, n: int, k: int)
    requires m <= |r.snapshots| && FirstToCommit(Run(r.snapshots[..m], r.submits), s, n, k)
    ensures FirstToCommit(r, s, n, k)
    ensures EntryAt(r, s, n, k) == EntryAt(Run(r.snapshots[..m], r.submits), s, n, k)
  {
    var early := Run(r.snapshots[..m], r.submits);
    forall t, j | t < s || (t == s && j < n) ensures !CommitsAt(r, t, j, k) {
      assert !CommitsAt(early, t, j, k);
    }
  }

  lemma NothingSeen()
    ensures FirstSeen([]) == []
  {}

  /** The reconstructed log has no gaps: it is exactly as long as the longest committed prefix. */
  lemma {:induction false} FirstSeenLength(ps: seq<seq<LogEntry>>)
    ensures forall i :: 0 <= i < |ps| ==> |ps[i]| <= |FirstSeen(ps)|
    ensures ps != [] ==> exists i :: 0 <= i < |ps| && |ps[i]| == |FirstSeen(ps)|
    decreases |ps|
  {
    if ps != [] {
      var n := |ps| - 1;
      var init := ps[..n];
      FirstSeenLength(init);
      assert forall i :: 0 <= i < n ==> ps[i] == init[i];
      if |ps[n]| < |FirstSeen(init)| {
        var i :| 0 <= i < n && |init[i]| == |FirstSeen(init)|;
        assert |ps[i]| == |FirstSeen(ps)|;
      } else {
        assert |ps[n]| == |FirstSeen(ps)|;
      }
    }
  }

  /** Each slot holds the entry of the first prefix that reached it, whatever came later. */
  lemma {:induction false} FirstSeenKeepsFirst(ps: seq<seq<LogEntry>>, i: nat, k: nat)
    requires i < |ps| && |FirstSeen(ps[..i])| <= k < |ps[i]|
    ensures k < |FirstSeen(ps)| && FirstSeen(ps)[k] == ps[i][k]
    decreases |ps|
  {
    var n := |ps| - 1;
    if i < n {
      assert ps[..n][..i] == ps[..i];
      FirstSeenKeepsFirst(ps[..n], i, k);
    }
  }

  /** On a run the safety checkers accept, it is the one sequence all committed prefixes add up to. */
  lemma {:induction false} FirstSeenIsTheSequence(ps: seq<seq<LogEntry>>)
    requires OneSequence(ps)
    ensures SumOf(FirstSeen(ps), ps)
    decreases |ps|
  {
    hide OneSequence, SumOf, Filled;
    if ps == [] {
      EmptySum();
    } else {
      var n := |ps| - 1;
      var init := ps[..n];
      assert ps == init + [ps[n]];
      SmallerStillOne(init, [ps[n]]);
      FirstSeenIsTheSequence(init);
      SumGrows(FirstSeen(init), init, ps[n]);
      FilledIsLonger(FirstSeen(init), ps[n]);
    }
  }

  lemma FilledIsLonger(h: seq<LogEntry>, p: seq<LogEntry>)
    requires Comparable(h, p)
    ensures Filled(h, p) == Longer(h, p)
  {}

  // ---- fabricated commands -----------------------------------------------------------------

  /** The log with the value at position `k`, if it has one, replaced. */
  function ForgedLog(p: seq<LogEntry>, k: nat, v: string): seq<LogEntry> {
    if k < |p| then p[k := p[k].(value := v)] else p
  }

  function ForgedNode(n: NodeSnapshot, k: nat, v: string): NodeSnapshot {
    if k < |Committed(n)| then n.(log := ForgedLog(n.log, k, v)) else n
  }

  function ForgedNodes(nodes: seq<NodeSnapshot>, k: nat, v: string): (r: seq<NodeSnapshot>)
    ensures |r| == |nodes| && forall i :: 0 <= i < |nodes| ==> r[i] == ForgedNode(nodes[i], k, v)
  {
    seq(|nodes|, i requires 0 <= i < |nodes| => ForgedNode(nodes[i], k, v))
  }

  function ForgedSnapshots(snapshots: seq<ClusterSnapshot>, k: nat, v: string): seq<ClusterSnapshot> {
    if snapshots == [] then []
    else
      var n := |snapshots| - 1;
      ForgedSnapshots(snapshots[..n], k, v) + [ClusterSnapshot(ForgedNodes(snapshots[n].nodes, k, v))]
  }

  /** The same run, with `v` for the value of committed slot `k` wherever a node has committed it. */
  function Forged(r: Run, k: nat, v: string): Run {
    r.(snapshots := ForgedSnapshots(r.snapshots, k, v))
  }

  ghost predicate ForgedAll(qs: seq<seq<LogEntry>>, ps: seq<seq<LogEntry>>, k: nat, v: string) {
    |qs| == |ps| && forall i :: 0 <= i < |ps| ==> qs[i] == ForgedLog(ps[i], k, v)
  }

  lemma {:induction false} ForgedPrefixes(snapshots: seq<ClusterSnapshot>, k: nat, v: string)
    ensures ForgedAll(Prefixes(ForgedSnapshots(snapshots, k, v)), Prefixes(snapshots), k, v)
    decreases |snapshots|
  {
    if snapshots != [] {
      var n := |snapshots| - 1;
      var nodes, before := snapshots[n].nodes, ForgedSnapshots(snapshots[..n], k, v);
      ForgedPrefixes(snapshots[..n], k, v);
      forall i | 0 <= i < |nodes|
        ensures NodePrefixes(ForgedNodes(nodes, k, v))[i] == ForgedLog(NodePrefixes(nodes)[i], k, v)
      {
        ForgedCommitted(nodes[i], k, v);
      }
      var forged := ForgedSnapshots(snapshots, k, v);
      assert forged[..|forged| - 1] == before;
    }
  }

  lemma ForgedCommitted(n: NodeSnapshot, k: nat, v: string)
    ensures Committed(ForgedNode(n, k, v)) == ForgedLog(Committed(n), k, v)
  {}

  lemma ForgedSum(s: seq<LogEntry>, ps: seq<seq<LogEntry>>, qs: seq<seq<LogEntry>>, k: nat, v: string)
    requires SumOf(s, ps) && ForgedAll(qs, ps, k, v)
    ensures SumOf(ForgedLog(s, k, v), qs)
  {
    forall i | 0 <= i < |qs| ensures qs[i] <= ForgedLog(s, k, v) { assert ps[i] <= s; }
    if s in ps {
      var i :| 0 <= i < |ps| && ps[i] == s;
      assert qs[i] == ForgedLog(s, k, v);
    }
  }

  /** The checker does not look for commands nobody submitted: a run whose only committed entry was never
      submitted is accepted. */
  lemma FabricatedCommandAccepted()
    ensures Linearizable(Run([ClusterSnapshot([NodeSnapshot(0, true, Leader, 1, 1, [LogEntry(1, "X")])])], []))
  {
    var node := NodeSnapshot(0, true, Leader, 1, 1, [LogEntry(1, "X")]);
    var snapshots := [ClusterSnapshot([node])];
    assert snapshots[..0] == [] && Prefixes([]) == [];
    assert Committed(node) == [LogEntry(1, "X")];
    assert NodePrefixes([node]) == [[LogEntry(1, "X")]];
    assert Prefixes(snapshots) == [[LogEntry(1, "X")]];
    OneLogIsItsSum([LogEntry(1, "X")]);
  }

  lemma OneLogIsItsSum(p: seq<LogEntry>)
    ensures SumOf(p, [p])
  {
    assert p in [p];
  }

  /** Exactly the slots that a committed submit claims are protected: putting a value nobody submitted into
      a committed slot of an accepted run is noticed if and only if some committed submit has that index. */
  lemma ForgeryNoticedExactly(r: Run, k: nat, v: string)
    requires Linearizable(r) && k < |FirstSeen(Prefixes(r.snapshots))|
    requires forall i :: 0 <= i < |r.submits| ==> r.submits[i].value != v
    ensures var s := FirstSeen(Prefixes(Forged(r, k, v).snapshots)); k < |s| && s[k].value == v
    ensures !Linearizable(Forged(r, k, v)) <==>
            exists i :: 0 <= i < |r.submits| && r.submits[i].committed && r.submits[i].index == k + 1
  {
    var ps, f := Prefixes(r.snapshots), Forged(r, k, v);
    var s :| SumOf(s, ps) && AllLinearized(r.submits, s);
    var t := ForgedLog(s, k, v);
    ForgedPrefixes(r.snapshots, k, v);
    ForgedSum(s, ps, Prefixes(f.snapshots), k, v);
    SequenceIs(s, ps);
    SequenceIs(t, Prefixes(f.snapshots));
    hide SumOf, Prefixes, FirstSeen, ForgedSnapshots, ForgedAll, AllLinearized, Linearizable;
    LinearizableBy(f, t);
    ForgedSubmits(r.submits, s, k, v);
  }

  lemma LinearizableBy(r: Run, s: seq<LogEntry>)
    requires SumOf(s, Prefixes(r.snapshots))
    ensures Linearizable(r) <==> AllLinearized(r.submits, s)
  {
    hide Prefixes;
    if Linearizable(r) {
      var t :| SumOf(t, Prefixes(r.snapshots)) && AllLinearized(r.submits, t);
      SumUnique(s, t, Prefixes(r.snapshots));
    }
  }

  lemma ForgedSubmits(submits: seq<Submit>, s: seq<LogEntry>, k: nat, v: string)
    requires AllLinearized(submits, s) && k < |s| && forall i :: 0 <= i < |submits| ==> submits[i].value != v
    ensures !AllLinearized(submits, ForgedLog(s, k, v)) <==>
            exists i :: 0 <= i < |submits| && submits[i].committed && submits[i].index == k + 1
  {
    var t := ForgedLog(s, k, v);
    forall i | 0 <= i < |submits|
      ensures Linearized(submits[i], t) <==> !(submits[i].committed && submits[i].index == k + 1)
    {
      assert Linearized(submits[i], s);
    }
  }

  lemma SequenceIs(s: seq<LogEntry>, ps: seq<seq<LogEntry>>)
    requires SumOf(s, ps)
    ensures FirstSeen(ps) == s
  {
    SumIsOne(s, ps);
    FirstSeenIsTheSequence(ps);
    SumUnique(s, FirstSeen(ps), ps);
  }

  /** So an accepted run whose every committed slot is claimed by a committed submit holds submitted values
      only. */
  lemma ClaimedSlotsAreGenuine(r: Run, k: nat)
    requires Linearizable(r) && k < |FirstSeen(Prefixes(r.snapshots))|
    requires exists i :: 0 <= i < |r.submits| && r.submits[i].committed && r.submits[i].index == k + 1
    ensures exists i :: 0 <= i < |r.submits| && r.submits[i].value == FirstSeen(Prefixes(r.snapshots))[k].value
  {
    var s :| SumOf(s, Prefixes(r.snapshots)) && AllLinearized(r.submits, s);
    SequenceIs(s, Prefixes(r.snapshots));
    var i :| 0 <= i < |r.submits| && r.submits[i].committed && r.submits[i].index == k + 1;
    assert Linearized(r.submits[i], s);
  }

  /** Across checkers: Linearizability accepts no run that StateMachineSafety rejects, and without
      committed submits its total-order half accepts exactly the same runs. */
  lemma TotalOrderHalvesAgree(r: Run)
    ensures Linearizable(r) ==> StateMachineSafety(r)
    ensures (forall i :: 0 <= i < |r.submits| ==> !r.submits[i].committed) ==>
              (Linearizable(r) <==> StateMachineSafety(r))
  {
    if Linearizable(r) {
      var s :| SumOf(s, Prefixes(r.snapshots));
      SumIsOne(s, Prefixes(r.snapshots));
    }
    if StateMachineSafety(r) && forall i :: 0 <= i < |r.submits| ==> !r.submits[i].committed {
      var s := FirstSeen(Prefixes(r.snapshots));
      FirstSeenIsTheSequence(Prefixes(r.snapshots));
      assert SumOf(s, Prefixes(r.snapshots)) && forall i :: 0 <= i < |r.submits| ==> Linearized(r.submits[i], s);
    }
  }

  // ---- cross-check of two implementations --------------------------------------------------

  /** `cross_check_committed_logs`: two logs agree exactly when one is a prefix of the other; the reported
      prefix is the longest common one. */
  method CrossCheck(a: seq<LogEntry>, b: seq<LogEntry>) returns (agree: bool, agreed: nat)
    ensures agree <==> Comparable(a, b)
    ensures agreed <= |a| && agreed <= |b| && a[..agreed] == b[..agreed]
    ensures agreed < |a| && agreed < |b| ==> a[agreed] != b[agreed]
  {
    var m := if |a| < |b| then |a| else |b|;
    for i := 0 to m
      invariant a[..i] == b[..i]
    {
      if a[i] != b[i] {
        return false, i;
      }
    }
    agree, agreed := true, m;
    if |a| <= |b| { assert a == a[..m]; } else { assert b == b[..m]; }
  }
}
