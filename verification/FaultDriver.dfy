/**
 The seeded fault schedule: crash, restart and partition episodes for every possible sequence of
 random draws. A majority stays live throughout and everything is live at the end.
 */
module FaultDriver {

  /** The random source as an arbitrary sequence of draws. */
  type Draws = nat -> nat

  function Uniform(draws: Draws, k: nat, bound: nat): (x: nat)
    ensures bound > 0 ==> x < bound
  {
    if bound == 0 then 0 else draws(k) % bound
  }

  function Chance(draws: Draws, k: nat): bool {
    draws(k) % 2 == 1
  }

  /** What the driver knows at a snapshot: the liveness mirror and its own list of crashed nodes. */
  datatype Situation = Situation(live: seq<bool>, crashed: seq<nat>)

  ghost predicate NoDuplicates(s: seq<nat>) {
    forall i, j :: 0 <= i < j < |s| ==> s[i] != s[j]
  }

  /** The list is duplicate-free and exactly the complement of the mirror. */
  ghost predicate Consistent(n: nat, s: Situation) {
    && |s.live| == n
    && NoDuplicates(s.crashed)
    && (forall k :: 0 <= k < |s.crashed| ==> s.crashed[k] < n)
    && (forall i :: 0 <= i < n ==> (s.live[i] <==> i !in s.crashed))
  }

  ghost function LiveNodes(live: seq<bool>): set<nat> {
    set i: nat | i < |live| && live[i]
  }

  /** A strict majority of the nodes is live. */
  ghost predicate Quorum(n: nat, s: Situation) {
    |LiveNodes(s.live)| >= n / 2 + 1
  }

  ghost function Upto(n: nat): (r: set<nat>)
    ensures |r| == n && forall i: nat :: i in r <==> i < n
  {
    if n == 0 then {} else Upto(n - 1) + {n - 1}
  }

  ghost function Elements(s: seq<nat>): (r: set<nat>)
    ensures forall x :: x in r <==> x in s
  {
    if s == [] then {} else Elements(s[..|s| - 1]) + {s[|s| - 1]}
  }

  lemma {:induction false} DistinctSize(s: seq<nat>)
    requires NoDuplicates(s)
    ensures |Elements(s)| == |s|
    decreases |s|
  {
    if s != [] {
      var n := |s| - 1;
      DistinctSize(s[..n]);
      assert s[n] !in s[..n];
    }
  }

  /** Counting the live nodes through the driver's own list is right. */
  lemma LiveCount(n: nat, s: Situation)
    requires Consistent(n, s)
    ensures |LiveNodes(s.live)| + |s.crashed| == n
  {
    DistinctSize(s.crashed);
    assert LiveNodes(s.live) + Elements(s.crashed) == Upto(n);
    assert LiveNodes(s.live) !! Elements(s.crashed);
  }

  lemma RestartKeeps(n: nat, s: Situation, idx: nat)
    requires Consistent(n, s) && idx < |s.crashed|
    ensures s.crashed[idx] < n
    ensures Consistent(n, Situation(s.live[s.crashed[idx] := true], s.crashed[..idx] + s.crashed[idx + 1..]))
  {
    var node, rest := s.crashed[idx], s.crashed[..idx] + s.crashed[idx + 1..];
    forall i | 0 <= i < n ensures i in rest <==> i in s.crashed && i != node {
      if i in s.crashed && i != node {
        var k :| 0 <= k < |s.crashed| && s.crashed[k] == i;
        assert rest[if k < idx then k else k - 1] == i;
      }
    }
  }

  lemma CrashKeeps(n: nat, s: Situation, node: nat)
    requires Consistent(n, s) && node < n && s.live[node]
    ensures Consistent(n, Situation(s.live[node := false], s.crashed + [node]))
  {
    var c := s.crashed + [node];
    assert c[|s.crashed|] == node;
    forall i | 0 <= i < n ensures i in c <==> i in s.crashed || i == node {
      if i in s.crashed {
        var k :| 0 <= k < |s.crashed| && s.crashed[k] == i;
        assert c[k] == i;
      }
    }
  }

  lemma QuorumByCount(n: nat, s: Situation)
    requires Consistent(n, s) && n - |s.crashed| >= n / 2 + 1
    ensures Quorum(n, s)
  {
    LiveCount(n, s);
  }

  // ---- the schedule as a function of the draws -----------------------------------------------

  /** The driver's state: liveness and crash list, remaining budgets, position in the draws, and the
      snapshots taken so far. */
  datatype Driver = Driver(live: seq<bool>, crashed: seq<nat>, crashesLeft: nat, partsLeft: nat, k: nat,
                           snapshots: seq<Situation>)

  function Begin(n: nat, partitions: nat, crashes: nat): Driver {
    Driver(seq(n, _ => true), [], crashes, partitions, 0, [])
  }

  function Now(d: Driver): Situation {
    Situation(d.live, d.crashed)
  }

  function Observe(d: Driver): Driver {
    d.(snapshots := d.snapshots + [Now(d)])
  }

  /** The side of a partition: every node that draws true. */
  function Side(n: nat, draws: Draws, start: nat): (side: seq<nat>)
    ensures forall i :: 0 <= i < |side| ==> side[i] < n
  {
    if n == 0 then [] else Side(n - 1, draws, start) + if Chance(draws, start + n - 1) then [n - 1] else []
  }

  /** Restart the crashed node a draw picks. */
  function Restart(d: Driver, idx: nat): Driver
    requires idx < |d.crashed| && d.crashed[idx] < |d.live|
  {
    Observe(d.(live := d.live[d.crashed[idx] := true], crashed := d.crashed[..idx] + d.crashed[idx + 1..]))
  }

  /** Crash the node a draw picks, if a majority would stay and it is up. */
  function Crash(n: nat, d: Driver, draws: Draws): Driver
    requires |d.live| == n
  {
    if n - |d.crashed| <= n / 2 + 1 then d
    else
      var node, d1 := Uniform(draws, d.k, n), d.(k := d.k + 1);
      if node in d.crashed || !d.live[node] then d1
      else Observe(d1.(live := d.live[node := false], crashed := d.crashed + [node],
                       crashesLeft := if d.crashesLeft > 0 then d.crashesLeft - 1 else 0))
  }

  function Partition(n: nat, d: Driver, draws: Draws): Driver {
    var side, d1 := Side(n, draws, d.k), d.(k := d.k + n);
    if side != [] && |side| < n then Observe(d1.(partsLeft := if d.partsLeft > 0 then d.partsLeft - 1 else 0)) else d1
  }

  /** One episode of `fault_driver`. */
  function Episode(n: nat, d0: Driver, draws: Draws): Driver
    requires Consistent(n, Now(d0))
  {
    var d := Observe(d0);
    var recover := d.crashed != [] && Chance(draws, d.k);
    var d1 := if d.crashed != [] then d.(k := d.k + 1) else d;
    if recover then Restart(d1.(k := d1.k + 1), Uniform(draws, d1.k, |d.crashed|))
    else
      var choice, d2 := Uniform(draws, d1.k, 2), d1.(k := d1.k + 1);
      if choice == 0 && d.crashesLeft > 0 && n >= 3 then Crash(n, d2, draws)
      else if choice == 1 && d.partsLeft > 0 && n >= 2 then Partition(n, d2, draws)
      else d2
  }

  /** The draw for node `i`, when the draws for a side start at `start`, comes out true. */
  predicate Heads(draws: Draws, start: nat, i: nat) {
    draws(start + i) % 2 == 1
  }

  /** A partition's side is exactly the nodes that drew true, in ascending order. */
  lemma {:induction false} SideMembers(n: nat, draws: Draws, start: nat)
    ensures forall i: nat :: i in Side(n, draws, start) <==> i < n && Heads(draws, start, i)
    ensures forall i, j :: 0 <= i < j < |Side(n, draws, start)| ==> Side(n, draws, start)[i] < Side(n, draws, start)[j]
    decreases n
  {
    if n > 0 { SideMembers(n - 1, draws, start); }
  }

  /** A restart brings the picked node up, and no other node changes. */
  lemma RestartBringsUp(n: nat, d: Driver, idx: nat)
    requires Consistent(n, Now(d)) && idx < |d.crashed|
    ensures var (node, e) := (d.crashed[idx], Restart(d, idx));
            && node !in LiveNodes(d.live) && LiveNodes(e.live) == LiveNodes(d.live) + {node}
            && node !in e.crashed && |e.crashed| == |d.crashed| - 1
            && e.snapshots == d.snapshots + [Now(e)]
            && e.crashesLeft == d.crashesLeft && e.partsLeft == d.partsLeft
  {
    RestartKeeps(n, Now(d), idx);
    var node := d.crashed[idx];
    assert node in d.crashed;
    hide NoDuplicates;
    assert Restart(d, idx).live[node];
  }

  /** A crash takes down the drawn node if it is up and a majority stays, at the cost of one unit of budget;
      otherwise nothing but the draw happens. */
  lemma CrashTakesDown(n: nat, d: Driver, draws: Draws)
    requires Consistent(n, Now(d)) && n > 0 && d.crashesLeft > 0
    ensures var (node, e) := (Uniform(draws, d.k, n), Crash(n, d, draws));
            if n - |d.crashed| > n / 2 + 1 && d.live[node] then
              && LiveNodes(e.live) == LiveNodes(d.live) - {node} && e.crashed == d.crashed + [node]
              && e.crashesLeft == d.crashesLeft - 1 && e.partsLeft == d.partsLeft
              && e.snapshots == d.snapshots + [Now(e)]
            else
              e == d.(k := e.k)
  {
    hide NoDuplicates, Uniform;
  }

  /** A partition touches no node; it costs one unit of budget exactly when it has two sides. */
  lemma PartitionCosts(n: nat, d: Driver, draws: Draws)
    requires d.partsLeft > 0
    ensures var e := Partition(n, d, draws);
            && Now(e) == Now(d) && e.crashesLeft == d.crashesLeft
            && (e.partsLeft == d.partsLeft - 1 <==>
                  && (exists i: nat :: i < n && Heads(draws, d.k, i))
                  && (exists i: nat :: i < n && !Heads(draws, d.k, i)))
            && (e.partsLeft == d.partsLeft || e.partsLeft == d.partsLeft - 1)
            && e.snapshots == if e.partsLeft < d.partsLeft then d.snapshots + [Now(d)] else d.snapshots
  {
    var side := Side(n, draws, d.k);
    SideMembers(n, draws, d.k);
    SideSize(n, draws, d.k);
    if side != [] { assert side[0] in side; }
    hide Side, Heads;
  }

  /** A side is everybody exactly when nobody drew false. */
  lemma {:induction false} SideSize(n: nat, draws: Draws, start: nat)
    ensures |Side(n, draws, start)| <= n
    ensures |Side(n, draws, start)| == n <==> forall i: nat :: i < n ==> Heads(draws, start, i)
    decreases n
  {
    if n > 0 {
      SideSize(n - 1, draws, start);
      assert Heads(draws, start, n - 1) == Chance(draws, start + n - 1);
      assert (forall i: nat :: i < n ==> Heads(draws, start, i)) <==>
             (forall i: nat :: i < n - 1 ==> Heads(draws, start, i)) && Heads(draws, start, n - 1);
    }
  }

  /** What one snapshot of the schedule is entitled to. */
  ghost predicate Sound(n: nat, s: Situation) {
    Consistent(n, s) && (n > 0 ==> Quorum(n, s))
  }

  /** Between episodes: the books are right, a majority is up, and so it was at every snapshot. */
  ghost predicate Steady(n: nat, d: Driver) {
    && Consistent(n, Now(d))
    && (n > 0 ==> n - |d.crashed| >= n / 2 + 1)
    && forall i :: 0 <= i < |d.snapshots| ==> Sound(n, d.snapshots[i])
  }

  lemma ObserveSteady(n: nat, d: Driver)
    requires Steady(n, d)
    ensures Steady(n, Observe(d))
  {
    if n > 0 { QuorumByCount(n, Now(d)); }
  }

  lemma RestartSteady(n: nat, d: Driver, idx: nat)
    requires Steady(n, d) && idx < |d.crashed|
    ensures d.crashed[idx] < |d.live| && Steady(n, Restart(d, idx))
  {
    hide Quorum, NoDuplicates;
    RestartKeeps(n, Now(d), idx);
    ObserveSteady(n, d.(live := d.live[d.crashed[idx] := true], crashed := d.crashed[..idx] + d.crashed[idx + 1..]));
  }

  lemma PartitionSteady(n: nat, d: Driver, draws: Draws)
    requires Steady(n, d)
    ensures Steady(n, Partition(n, d, draws))
  {
    hide Quorum, NoDuplicates, Side;
    ObserveSteady(n, d.(k := d.k + n, partsLeft := if d.partsLeft > 0 then d.partsLeft - 1 else 0));
  }

  lemma DrawSteady(n: nat, d: Driver, k: nat)
    requires Steady(n, d)
    ensures Steady(n, d.(k := k)) && |d.live| == n && Consistent(n, Now(d))
  {}

  /** Every episode, whatever it draws, keeps a majority live and the books right. */
  lemma EpisodeKeeps(n: nat, d0: Driver, draws: Draws)
    requires Steady(n, d0)
    ensures Steady(n, Episode(n, d0, draws))
  {
    hide Steady, Consistent, Crash, Partition, Restart, Uniform, Chance;
    var d := Observe(d0);
    ObserveSteady(n, d0);
    var d1 := if d.crashed != [] then d.(k := d.k + 1) else d;
    var d2 := d1.(k := d1.k + 1);
    DrawSteady(n, d0, d0.k);
    DrawSteady(n, d, d1.k);
    DrawSteady(n, d1, d2.k);
    if d.crashed != [] && Chance(draws, d.k) {
      RestartSteady(n, d2, Uniform(draws, d1.k, |d.crashed|));
    } else if Uniform(draws, d1.k, 2) == 0 && d.crashesLeft > 0 && n >= 3 {
      CrashSteady(n, d2, draws);
    } else if Uniform(draws, d1.k, 2) == 1 && d.partsLeft > 0 && n >= 2 {
      PartitionSteady(n, d2, draws);
    }
  }

  lemma CrashSteady(n: nat, d: Driver, draws: Draws)
    requires Steady(n, d) && n >= 3
    ensures Steady(n, Crash(n, d, draws))
  {
    hide Quorum, NoDuplicates;
    var node := Uniform(draws, d.k, n);
    if n - |d.crashed| > n / 2 + 1 && node !in d.crashed && d.live[node] {
      CrashKeeps(n, Now(d), node);
      ObserveSteady(n, d.(k := d.k + 1, live := d.live[node := false], crashed := d.crashed + [node],
                          crashesLeft := if d.crashesLeft > 0 then d.crashesLeft - 1 else 0));
    }
  }

  /** The state after a number of episodes, for every sequence of draws. */
  function Episodes(n: nat, partitions: nat, crashes: nat, draws: Draws, count: nat): (d: Driver)
    ensures Steady(n, d)
  {
    if count == 0 then
      BeginSteady(n, partitions, crashes);
      Begin(n, partitions, crashes)
    else
      var d := Episodes(n, partitions, crashes, draws, count - 1);
      EpisodeKeeps(n, d, draws);
      Episode(n, d, draws)
  }

  lemma BeginSteady(n: nat, partitions: nat, crashes: nat)
    ensures Steady(n, Begin(n, partitions, crashes))
  {}

  // ---- the bound is tight ------------------------------------------------------------------

  /** How many nodes can be down while a strict majority is up. */
  function Minority(n: nat): int {
    n - (n / 2 + 1)
  }

  /** Draws that never restart, always choose to crash, and name the nodes one after the other. */
  function Relentless(k: nat): nat {
    if k % 3 == 1 then k / 3 else 0
  }

  /** After `j` such episodes the first `j` nodes are down. */
  ghost predicate Crashed(n: nat, d: Driver, j: nat) {
    && |d.live| == n && |d.crashed| == j <= n
    && (forall i :: 0 <= i < j ==> d.crashed[i] == i)
    && (forall i :: j <= i < n ==> d.live[i])
    && d.k == (if j == 0 then 0 else 3 * j - 1)
  }

  lemma RelentlessEpisode(n: nat, d: Driver, j: nat)
    requires n >= 3 && Steady(n, d) && Crashed(n, d, j) && j < Minority(n) && d.crashesLeft > 0
    ensures var e := Episode(n, d, Relentless);
            Crashed(n, e, j + 1) && e.crashesLeft == d.crashesLeft - 1
            && |e.snapshots| > 0 && e.snapshots[|e.snapshots| - 1] == Now(e)
  {
    RelentlessDraws(n, j);
    var d1 := Observe(d);
    var d2 := if j == 0 then d1.(k := 1) else d1.(k := 3 * j + 1);
    hide Relentless, Steady, Consistent, Uniform, Chance, Restart, Partition, Crash;
    assert Episode(n, d, Relentless) == Crash(n, d2, Relentless);
    RelentlessCrash(n, d2, j);
  }

  lemma RelentlessDraws(n: nat, j: nat)
    requires j < n
    ensures Uniform(Relentless, 3 * j, 2) == 0 && Uniform(Relentless, 3 * j + 1, n) == j
    ensures j > 0 ==> !Chance(Relentless, 3 * j - 1)
  {
    assert (3 * j) % 3 == 0 && (3 * j + 1) % 3 == 1 && (3 * j + 1) / 3 == j;
    if j > 0 { assert (3 * j - 1) % 3 == 2; }
    SmallRemainder(j, n);
  }

  lemma SmallRemainder(j: nat, n: nat)
    requires j < n
    ensures j % n == j
  {}

  lemma RelentlessCrash(n: nat, d: Driver, j: nat)
    requires |d.live| == n && |d.crashed| == j < Minority(n) && d.crashesLeft > 0 && d.k == 3 * j + 1
    requires forall i :: 0 <= i < j ==> d.crashed[i] == i
    requires forall i :: j <= i < n ==> d.live[i]
    ensures var e := Crash(n, d, Relentless);
            && Crashed(n, e, j + 1) && e.crashesLeft == d.crashesLeft - 1
            && |e.snapshots| > 0 && e.snapshots[|e.snapshots| - 1] == Now(e)
  {
    RelentlessDraws(n, j);
    hide Relentless, Uniform;
  }

  lemma {:induction false} RelentlessEpisodes(n: nat, crashes: nat, j: nat)
    requires n >= 3 && j <= crashes <= Minority(n)
    ensures var d := Episodes(n, 0, crashes, Relentless, j);
            && Crashed(n, d, j) && d.crashesLeft == crashes - j
            && (j > 0 ==> |d.snapshots| > 0 && d.snapshots[|d.snapshots| - 1] == Now(d))
    decreases j
  {
    hide Episode, Crashed, Steady, Relentless;
    if j == 0 {
      NobodyCrashed(n, crashes);
    } else {
      RelentlessEpisodes(n, crashes, j - 1);
      RelentlessEpisode(n, Episodes(n, 0, crashes, Relentless, j - 1), j - 1);
    }
  }

  lemma NobodyCrashed(n: nat, crashes: nat)
    ensures Crashed(n, Begin(n, 0, crashes), 0)
  {}

  /** In a cluster of any size some schedule goes down to the bare majority: the bound is tight. */
  lemma CrashesDownToTheMajority(n: nat)
    requires n >= 3
    ensures var d := Episodes(n, 0, Minority(n), Relentless, Minority(n));
            && 0 < |d.snapshots|
            && |LiveNodes(d.snapshots[|d.snapshots| - 1].live)| == n / 2 + 1
  {
    var c: nat := Minority(n);
    RelentlessEpisodes(n, c, c);
    LiveCount(n, Now(Episodes(n, 0, c, Relentless, c)));
  }

  // ---- the driver itself -------------------------------------------------------------------

  method DrawSide(n: nat, draws: Draws, start: nat) returns (side: seq<nat>, k: nat)
    ensures side == Side(n, draws, start) && k == start + n
  {
    side, k := [], start;
    for i := 0 to n
      invariant side == Side(i, draws, start) && k == start + i
    {
      if Chance(draws, k) {
        side := side + [i];
      }
      k := k + 1;
    }
  }

  ghost predicate AllLive(n: nat, live: seq<bool>) {
    |live| == n && forall i :: 0 <= i < n ==> live[i]
  }

  /** The crash branch: refuse to lose the majority, refuse a node that is already down. */
  method TryCrash(n: nat, d0: Driver, draws: Draws) returns (d: Driver)
    requires |d0.live| == n && d0.crashesLeft > 0 && n > 0
    ensures d == Crash(n, d0, draws)
  {
    d := d0;
    if n - |d.crashed| > n / 2 + 1 {
      var node := Uniform(draws, d.k, n);
      d := d.(k := d.k + 1);
      var already := false;
      for c := 0 to |d.crashed|
        invariant already <==> node in d.crashed[..c]
      {
        if d.crashed[c] == node {
          already := true;
        }
      }
      assert d.crashed[..|d.crashed|] == d.crashed;
      if !already && d.live[node] {
        d := d.(live := d.live[node := false], crashed := d.crashed + [node], crashesLeft := d.crashesLeft - 1);
        d := d.(snapshots := d.snapshots + [Situation(d.live, d.crashed)]);
      }
    }
  }

  /** The body of the loop in `fault_driver`. */
  method RunEpisode(n: nat, d0: Driver, draws: Draws) returns (d: Driver)
    requires Consistent(n, Now(d0))
    ensures d == Episode(n, d0, draws)
  {
    hide Crash, Side, NoDuplicates, Uniform, Chance;
    d := d0.(snapshots := d0.snapshots + [Situation(d0.live, d0.crashed)]);
    if d.crashed != [] {
      var recover := Chance(draws, d.k);
      d := d.(k := d.k + 1);
      if recover {
        var idx := Uniform(draws, d.k, |d.crashed|);
        d := d.(k := d.k + 1, live := d.live[d.crashed[idx] := true],
                crashed := d.crashed[..idx] + d.crashed[idx + 1..]);
        d := d.(snapshots := d.snapshots + [Situation(d.live, d.crashed)]);
        return;
      }
    }
    var choice := Uniform(draws, d.k, 2);
    d := d.(k := d.k + 1);
    if choice == 0 && d.crashesLeft > 0 && n >= 3 {
      d := TryCrash(n, d, draws);
    } else if choice == 1 && d.partsLeft > 0 && n >= 2 {
      var side, k := DrawSide(n, draws, d.k);
      d := d.(k := k);
      if side != [] && |side| < n {
        d := d.(partsLeft := d.partsLeft - 1);
        d := d.(snapshots := d.snapshots + [Situation(d.live, d.crashed)]);
      }
    }
  }

  /** The final cleanup restarts every crashed node. */
  method RestartAll(n: nat, live0: seq<bool>, crashed: seq<nat>) returns (live: seq<bool>)
    requires Consistent(n, Situation(live0, crashed))
    ensures AllLive(n, live)
  {
    live := live0;
    for k := 0 to |crashed|
      invariant |live| == n
      invariant forall i :: 0 <= i < n ==> (live[i] <==> i !in crashed[k..])
    {
      assert crashed[k..] == [crashed[k]] + crashed[k + 1..];
      assert forall j :: k < j < |crashed| ==> crashed[j] != crashed[k];
      live := live[crashed[k] := true];
    }
  }

  /** With everybody live the list agrees with the mirror exactly when it is empty. */
  lemma AgreesExactly(n: nat, live: seq<bool>, crashed: seq<nat>)
    requires AllLive(n, live) && forall k :: 0 <= k < |crashed| ==> crashed[k] < n
    ensures Consistent(n, Situation(live, crashed)) <==> crashed == []
  {
    if crashed != [] { assert crashed[0] in crashed && live[crashed[0]]; }
  }

  /** Draws that crash node 0 once and never restart it. */
  function Zero(k: nat): nat {
    0
  }

  lemma FirstZeroEpisode(n: nat, d: Driver)
    requires n >= 3 && Consistent(n, Now(d)) && d.crashed == [] && d.crashesLeft == 1 && d.partsLeft == 0
    ensures var e := Episode(n, d, Zero); e.crashed == [0] && e.crashesLeft == 0 && e.partsLeft == 0
  {
    assert d.live[0];
  }

  lemma LaterZeroEpisode(n: nat, d: Driver)
    requires Consistent(n, Now(d)) && d.crashed == [0] && d.crashesLeft == 0 && d.partsLeft == 0
    ensures var e := Episode(n, d, Zero); e.crashed == [0] && e.crashesLeft == 0 && e.partsLeft == 0
  {}

  /** In a cluster of any size from three nodes some schedule leaves the list filled when the cleanup
      begins, and so at the last snapshot. */
  lemma {:induction false} ListStaysFilled(n: nat, count: nat)
    requires n >= 3 && count >= 1
    ensures var d := Episodes(n, 0, 1, Zero, count); d.crashed == [0] && d.crashesLeft == 0 && d.partsLeft == 0
    decreases count
  {
    hide Episode, Consistent, Steady;
    if count == 1 {
      var d := Begin(n, 0, 1);
      assert Episodes(n, 0, 1, Zero, 0) == d;
      BeginConsistent(n, 0, 1);
      FirstZeroEpisode(n, d);
    } else {
      ListStaysFilled(n, count - 1);
      var d := Episodes(n, 0, 1, Zero, count - 1);
      DrawSteady(n, d, d.k);
      LaterZeroEpisode(n, d);
    }
  }

  lemma BeginConsistent(n: nat, partitions: nat, crashes: nat)
    ensures Consistent(n, Now(Begin(n, partitions, crashes)))
  {}

  /** `fault_driver`. For every sequence of draws: at every snapshot but the last the crashed list and the
      liveness mirror are exact complements, at every snapshot a majority is live, and at the last one
      everybody is. There the list still names the nodes the cleanup has restarted, so it agrees with the
      mirror exactly when it was empty before. */
  method Drive(n: nat, partitions: nat, crashes: nat, draws: Draws) returns (snapshots: seq<Situation>)
    ensures var d := Episodes(n, partitions, crashes, draws, (partitions + crashes) * 2 + 2);
            && |snapshots| == |d.snapshots| + 1 && snapshots[..|d.snapshots|] == d.snapshots
            && snapshots[|d.snapshots|].crashed == d.crashed
    ensures forall i :: 0 <= i < |snapshots| - 1 ==> Sound(n, snapshots[i])
    ensures AllLive(n, snapshots[|snapshots| - 1].live)
    ensures n > 0 ==> Quorum(n, snapshots[|snapshots| - 1])
    ensures Consistent(n, snapshots[|snapshots| - 1]) <==> snapshots[|snapshots| - 1].crashed == []
  {
    hide Quorum, NoDuplicates, Episode;
    var count := (partitions + crashes) * 2 + 2;
    var d := Begin(n, partitions, crashes);
    for ep := 0 to count
      invariant d == Episodes(n, partitions, crashes, draws, ep)
    {
      d := RunEpisode(n, d, draws);
    }
    var live := RestartAll(n, d.live, d.crashed);
    AllUp(n, Situation(live, d.crashed));
    AgreesExactly(n, live, d.crashed);
    snapshots := d.snapshots + [Situation(live, d.crashed)];
  }

  lemma AllUp(n: nat, s: Situation)
    requires AllLive(n, s.live)
    ensures n > 0 ==> Quorum(n, s)
  {
    LiveCount(n, Situation(s.live, []));
  }
}
