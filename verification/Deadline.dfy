/**
 The virtual-time budget of a cluster run: how long the client sessions, the fault schedule, the
 membership schedule and the final settle can take, against the computed deadline. Each waits only
 on virtual timers, and a timer fires exactly at its due tick, so time used is the sum of delays.
 */
module Deadline {

  datatype Config = Config(
    submits: nat, gapMin: int, gapMax: int, electionMax: int, heartbeat: int, requestDeadline: int,
    settleTicks: int, partitions: nat, crashes: nat, changes: nat)

  /** Positive strides, sensible ranges: what the drivers need to terminate at all. */
  predicate Sensible(c: Config) {
    c.electionMax > 0 && c.heartbeat > 0 && 0 <= c.gapMin <= c.gapMax && c.requestDeadline >= 0 && c.settleTicks >= 0
  }

  /** What the cluster and the random source do to the i-th operation: the gap drawn, after how many polls
      a leader is seen, whether it accepts, after how many polls the entry is seen committed. */
  datatype World = World(gap: nat -> int, leaderAfter: nat -> nat, accepts: nat -> bool, doneAfter: nat -> nat)

  /** `uniform_range` on an arbitrary draw. */
  function Draw(lo: int, hi: int, x: int): (r: int)
    ensures lo <= hi ==> lo <= r <= hi
  {
    if hi <= lo then lo else if x < lo then lo else if x > hi then hi else x
  }

  /** How many strides it takes to use up a budget. */
  function Rounds(budget: int, stride: int): (n: nat)
    requires stride > 0
    ensures budget <= n * stride
    ensures budget > 0 ==> (n - 1) * stride < budget
    ensures budget <= 0 ==> n == 0
  {
    if budget <= 0 then 0
    else
      var n := 1 + Rounds(budget - stride, stride);
      assert (n - 1) * stride + stride == n * stride;
      assert (n - 2) * stride + stride == (n - 1) * stride;
      n
  }

  function Min(a: nat, b: nat): nat {
    if a <= b then a else b
  }

  /** Polls until something visible after `after` strides is seen, when the first look comes before the
      first wait or only after it. */
  function Polls(after: nat, look: bool): (n: nat)
    ensures n >= after && (look || n >= 1)
    ensures n > after ==> n == 1 && !look
  {
    if look || after > 0 then after else 1
  }

  /** A polling loop: wait a stride, look, until seen or the budget is used up. */
  method PollLoop(budget: int, stride: int, after: nat, look: bool) returns (waited: int, seen: bool)
    requires stride > 0
    ensures waited == stride * Min(Polls(after, look), Rounds(budget, stride))
    ensures seen <==> Polls(after, look) <= Rounds(budget, stride)
  {
    waited, seen := 0, look && after == 0;
    var k := 0;
    var n := Rounds(budget, stride);
    assert stride * 0 == 0;
    while waited < budget && !seen
      invariant 0 <= k <= n && waited == stride * k
      invariant seen ==> k == Polls(after, look)
      invariant !seen ==> k < Polls(after, look)
      decreases n - k
    {
      RoundsLeft(budget, stride, k);
      k := k + 1;
      waited := waited + stride;
      seen := k >= after;
    }
    if !seen { RoundsUsed(budget, stride, k); }
  }

  lemma RoundsLeft(budget: int, stride: int, k: nat)
    requires stride > 0 && stride * k < budget
    ensures k < Rounds(budget, stride) && stride * (k + 1) == stride * k + stride
  {
    MulMonotone(Rounds(budget, stride), k, stride);
  }

  lemma RoundsUsed(budget: int, stride: int, k: nat)
    requires stride > 0 && stride * k >= budget && k <= Rounds(budget, stride)
    ensures k == Rounds(budget, stride)
  {
    var n: int := Rounds(budget, stride);
    MulMonotone(k, n - 1, stride);
  }

  lemma MulMonotone(a: int, b: int, s: int)
    ensures a <= b && s >= 0 ==> a * s <= b * s && s * a <= s * b
  {}

  lemma OneMore(n: nat, x: int)
    requires n > 0
    ensures (n - 1) * x + x == n * x
  {}

  // ---- the client session ------------------------------------------------------------------

  function GapTime(c: Config, w: World, i: nat): int {
    var g := Draw(c.gapMin, c.gapMax, w.gap(i));
    if g > 0 then g else 0
  }

  function LeaderTime(c: Config, w: World, i: nat): int
    requires Sensible(c)
  {
    c.electionMax * Min(w.leaderAfter(i), Rounds(4 * c.electionMax, c.electionMax))
  }

  function CommitTime(c: Config, w: World, i: nat): int
    requires Sensible(c)
  {
    var found := w.leaderAfter(i) <= Rounds(4 * c.electionMax, c.electionMax);
    if found && w.accepts(i) then
      2 * c.heartbeat * Min(Polls(w.doneAfter(i), false), Rounds(c.requestDeadline, 2 * c.heartbeat))
    else 0
  }

  function SessionTime(c: Config, w: World, n: nat): int
    requires Sensible(c)
  {
    if n == 0 then 0
    else SessionTime(c, w, n - 1) + GapTime(c, w, n - 1) + LeaderTime(c, w, n - 1) + CommitTime(c, w, n - 1)
  }

  /** `client_driver`, as far as the clock is concerned. */
  method ClientSession(c: Config, w: World) returns (now: int)
    requires Sensible(c)
    ensures now == SessionTime(c, w, c.submits)
  {
    now := 0;
    for i := 0 to c.submits
      invariant now == SessionTime(c, w, i)
    {
      var gap := Draw(c.gapMin, c.gapMax, w.gap(i));
      if gap > 0 {
        now := now + gap;
      }
      var waited, found := PollLoop(4 * c.electionMax, c.electionMax, w.leaderAfter(i), true);
      now := now + waited;
      if found && w.accepts(i) {
        var more, _ := PollLoop(c.requestDeadline, 2 * c.heartbeat, w.doneAfter(i), false);
        now := now + more;
      }
    }
  }

  lemma FourRounds(c: Config)
    requires Sensible(c)
    ensures Rounds(4 * c.electionMax, c.electionMax) == 4
  {
    RoundsOfMultiple(4, c.electionMax);
  }

  /** The longest one operation can take. */
  function PerSubmit(c: Config): int
    requires Sensible(c)
  {
    c.gapMax + 4 * c.electionMax + 2 * c.heartbeat * Rounds(c.requestDeadline, 2 * c.heartbeat)
  }

  lemma {:induction false} SessionBound(c: Config, w: World, n: nat)
    requires Sensible(c)
    ensures SessionTime(c, w, n) <= n * PerSubmit(c)
    decreases n
  {
    if n > 0 {
      SessionBound(c, w, n - 1);
      SubmitBound(c, w, n - 1);
      hide GapTime, LeaderTime, CommitTime, PerSubmit;
      OneMore(n, PerSubmit(c));
    }
  }

  lemma SubmitBound(c: Config, w: World, i: nat)
    requires Sensible(c)
    ensures GapTime(c, w, i) + LeaderTime(c, w, i) + CommitTime(c, w, i) <= PerSubmit(c)
  {
    LeaderBound(c, w, i);
    hide LeaderTime, Polls;
    var stride, most := 2 * c.heartbeat, Rounds(c.requestDeadline, 2 * c.heartbeat);
    var polls := Min(Polls(w.doneAfter(i), false), most);
    MulMonotone(polls, most, stride);
    MulMonotone(0, most, stride);
    assert stride * polls <= stride * most;
  }

  lemma LeaderBound(c: Config, w: World, i: nat)
    requires Sensible(c)
    ensures LeaderTime(c, w, i) <= 4 * c.electionMax
  {
    FourRounds(c);
    MulMonotone(Min(w.leaderAfter(i), 4), 4, c.electionMax);
  }

  /** The slowest world: longest gaps, a leader only at the last look, and nothing ever committed. */
  function Slowest(c: Config): World
    requires Sensible(c)
  {
    var never := Rounds(c.requestDeadline, 2 * c.heartbeat) + 1;
    World(_ => c.gapMax, _ => 4, _ => true, _ => never)
  }

  lemma {:induction false} SlowestTime(c: Config, n: nat)
    requires Sensible(c)
    ensures SessionTime(c, Slowest(c), n) == n * PerSubmit(c)
    decreases n
  {
    if n > 0 {
      SlowestTime(c, n - 1);
      SlowestSubmit(c, n - 1);
      hide GapTime, LeaderTime, CommitTime, PerSubmit, Slowest;
      OneMore(n, PerSubmit(c));
    }
  }

  lemma SlowestSubmit(c: Config, i: nat)
    requires Sensible(c)
    ensures var w := Slowest(c); GapTime(c, w, i) + LeaderTime(c, w, i) + CommitTime(c, w, i) == PerSubmit(c)
  {
    FourRounds(c);
    var w, most := Slowest(c), Rounds(c.requestDeadline, 2 * c.heartbeat);
    hide Rounds;
    assert LeaderTime(c, w, i) == 4 * c.electionMax;
    assert Min(Polls(w.doneAfter(i), false), most) == most;
  }

  // ---- the other chains --------------------------------------------------------------------

  function Episodes(c: Config): nat {
    (c.partitions + c.crashes) * 2 + 2
  }

  function FaultTime(c: Config, draws: nat -> int, n: nat): int {
    if n == 0 then 0 else FaultTime(c, draws, n - 1) + Draw(c.electionMax, 3 * c.electionMax, draws(n - 1))
  }

  /** `fault_driver`'s clock: one draw from [electionMax, 3 * electionMax] per episode. */
  method FaultSchedule(c: Config, draws: nat -> int) returns (now: int)
    ensures now == FaultTime(c, draws, (c.partitions + c.crashes) * 2 + 2)
  {
    now := 0;
    for ep := 0 to Episodes(c)
      invariant now == FaultTime(c, draws, ep)
    {
      now := now + Draw(c.electionMax, 3 * c.electionMax, draws(ep));
    }
  }

  lemma {:induction false} FaultBound(c: Config, draws: nat -> int, n: nat)
    requires Sensible(c)
    ensures FaultTime(c, draws, n) <= n * (3 * c.electionMax)
    decreases n
  {
    if n > 0 {
      FaultBound(c, draws, n - 1);
      assert (n - 1) * (3 * c.electionMax) + 3 * c.electionMax == n * (3 * c.electionMax);
    }
  }

  /** The longest one membership change can take. */
  function PerChange(c: Config): int
    requires Sensible(c)
  {
    var settle := 2 * c.heartbeat * Rounds(8 * c.electionMax + c.requestDeadline, 2 * c.heartbeat);
    4 * c.electionMax + if settle > c.electionMax then settle else c.electionMax
  }

  /** One membership change: find a leader, then either give up for a while or wait for it to settle. */
  function ChangeTime(c: Config, w: World, i: nat): int
    requires Sensible(c)
  {
    LeaderTime(c, w, i) +
    if w.leaderAfter(i) > Rounds(4 * c.electionMax, c.electionMax) then c.electionMax
    else 2 * c.heartbeat *
         Min(Polls(w.doneAfter(i), false), Rounds(8 * c.electionMax + c.requestDeadline, 2 * c.heartbeat))
  }

  function MembershipTime(c: Config, w: World, n: nat): int
    requires Sensible(c)
  {
    if n == 0 then 0 else MembershipTime(c, w, n - 1) + ChangeTime(c, w, n - 1)
  }

  /** `membership_driver`'s clock; `w` says when a leader is seen and when a change is seen settled. */
  method MembershipSchedule(c: Config, w: World) returns (now: int)
    requires Sensible(c)
    ensures now == MembershipTime(c, w, c.changes)
  {
    now := 0;
    for ep := 0 to c.changes
      invariant now == MembershipTime(c, w, ep)
    {
      var waited, found := PollLoop(4 * c.electionMax, c.electionMax, w.leaderAfter(ep), true);
      now := now + waited;
      if !found {
        now := now + c.electionMax;
      } else {
        var more, _ := PollLoop(8 * c.electionMax + c.requestDeadline, 2 * c.heartbeat, w.doneAfter(ep), false);
        now := now + more;
      }
    }
  }

  lemma {:induction false} MembershipBound(c: Config, w: World, n: nat)
    requires Sensible(c)
    ensures MembershipTime(c, w, n) <= n * PerChange(c)
    decreases n
  {
    if n > 0 {
      MembershipBound(c, w, n - 1);
      ChangeBound(c, w, n - 1);
      hide ChangeTime, PerChange;
      OneMore(n, PerChange(c));
    }
  }

  lemma ChangeBound(c: Config, w: World, i: nat)
    requires Sensible(c)
    ensures ChangeTime(c, w, i) <= PerChange(c)
  {
    LeaderBound(c, w, i);
    hide LeaderTime, Polls;
    var stride, most := 2 * c.heartbeat, Rounds(8 * c.electionMax + c.requestDeadline, 2 * c.heartbeat);
    var polls := Min(Polls(w.doneAfter(i), false), most);
    MulMonotone(polls, most, stride);
    assert stride * polls <= stride * most;
  }

  /** `settle_and_snapshot` takes exactly the ticks it is given: the last stride is cut to fit. */
  method Settle(ticks: int, stride: int) returns (elapsed: int)
    requires stride > 0 && ticks >= 0
    ensures elapsed == ticks
  {
    elapsed := 0;
    while elapsed < ticks
      invariant 0 <= elapsed <= ticks
    {
      var step := if stride < ticks - elapsed then stride else ticks - elapsed;
      elapsed := elapsed + step;
    }
  }

  // ---- the deadline ------------------------------------------------------------------------

  function Max(a: int, b: int): int {
    if a >= b then a else b
  }

  /** `compute_deadline`. */
  function ComputeDeadline(c: Config): int {
    var client := c.submits * (c.gapMax + c.electionMax * 4 + c.requestDeadline);
    var fault := Episodes(c) * (c.electionMax * 3);
    var settle := c.settleTicks * 4;
    var membership := c.changes * (c.electionMax * 12 + c.requestDeadline);
    Max(Max(Max(client, fault), membership), settle) + settle + c.electionMax * 4
  }

  /** No client session outlasts the deadline, in any world; no fault schedule, for any draws; no membership
      schedule, in any world. */
  ghost predicate ClientsFit(c: Config)
    requires Sensible(c)
  {
    forall w: World :: SessionTime(c, w, c.submits) <= ComputeDeadline(c)
  }

  ghost predicate FaultsFit(c: Config) {
    forall draws: nat -> int :: FaultTime(c, draws, Episodes(c)) <= ComputeDeadline(c)
  }

  ghost predicate MembershipFits(c: Config)
    requires Sensible(c)
  {
    forall w: World :: MembershipTime(c, w, c.changes) <= ComputeDeadline(c)
  }

  /** No driver outlasts `compute_deadline`. */
  ghost predicate DeadlineCovers(c: Config)
    requires Sensible(c)
  {
    ClientsFit(c) && FaultsFit(c) && MembershipFits(c) && 4 * c.settleTicks <= ComputeDeadline(c)
  }

  /** Every client session ends by the deadline, whatever the cluster does, exactly when the slowest one
      does; and that is arithmetic on the configuration. */
  lemma ClientFitsExactly(c: Config)
    requires Sensible(c)
    ensures ClientsFit(c) <==> c.submits * PerSubmit(c) <= ComputeDeadline(c)
  {
    SlowestTime(c, c.submits);
    if c.submits * PerSubmit(c) <= ComputeDeadline(c) {
      forall w: World ensures SessionTime(c, w, c.submits) <= ComputeDeadline(c) { SessionBound(c, w, c.submits); }
    }
  }

  /** The slowest world for membership changes: a leader only at the last look, nothing ever settled. */
  function Unsettled(c: Config): World
    requires Sensible(c)
  {
    var never := Rounds(8 * c.electionMax + c.requestDeadline, 2 * c.heartbeat) + 1;
    World(_ => 0, _ => 4, _ => true, _ => never)
  }

  lemma UnsettledChange(c: Config, i: nat)
    requires Sensible(c)
    ensures ChangeTime(c, Unsettled(c), i) == PerChange(c)
  {
    FourRounds(c);
    SettleIsLong(c);
    var w, most := Unsettled(c), Rounds(8 * c.electionMax + c.requestDeadline, 2 * c.heartbeat);
    assert Min(Polls(w.doneAfter(i), false), most) == most;
    assert w.leaderAfter(i) == 4;
    hide Rounds, Unsettled, Polls;
    assert LeaderTime(c, w, i) == c.electionMax * 4;
    assert ChangeTime(c, w, i) == LeaderTime(c, w, i) + 2 * c.heartbeat * most;
  }

  /** Waiting for a change to settle takes longer than waiting out a leaderless window. */
  lemma SettleIsLong(c: Config)
    requires Sensible(c)
    ensures 2 * c.heartbeat * Rounds(8 * c.electionMax + c.requestDeadline, 2 * c.heartbeat) >= c.electionMax
  {
    var stride, most := 2 * c.heartbeat, Rounds(8 * c.electionMax + c.requestDeadline, 2 * c.heartbeat);
    assert most * stride >= 8 * c.electionMax + c.requestDeadline;
    Commutes(most, stride);
  }

  lemma Commutes(a: int, b: int)
    ensures a * b == b * a
  {}

  lemma {:induction false} UnsettledTime(c: Config, n: nat)
    requires Sensible(c)
    ensures MembershipTime(c, Unsettled(c), n) == n * PerChange(c)
    decreases n
  {
    if n > 0 {
      UnsettledTime(c, n - 1);
      UnsettledChange(c, n - 1);
      hide ChangeTime, PerChange;
      OneMore(n, PerChange(c));
    }
  }

  /** Every membership schedule ends by the deadline exactly when the slowest one does. */
  lemma MembershipFitsExactly(c: Config)
    requires Sensible(c)
    ensures MembershipFits(c) <==> c.changes * PerChange(c) <= ComputeDeadline(c)
  {
    UnsettledTime(c, c.changes);
    if c.changes * PerChange(c) <= ComputeDeadline(c) {
      forall w: World ensures MembershipTime(c, w, c.changes) <= ComputeDeadline(c) {
        MembershipBound(c, w, c.changes);
      }
    }
  }

  lemma FaultsAndSettleFit(c: Config)
    requires Sensible(c)
    ensures FaultsFit(c) && 4 * c.settleTicks <= ComputeDeadline(c)
  {
    forall draws: nat -> int ensures FaultTime(c, draws, Episodes(c)) <= Episodes(c) * (3 * c.electionMax) {
      FaultBound(c, draws, Episodes(c));
    }
  }

  /** The deadline covers every driver if and only if it covers the two chains that poll, each at its
      slowest. */
  lemma DeadlineCoversExactly(c: Config)
    requires Sensible(c)
    ensures DeadlineCovers(c) <==>
            c.submits * PerSubmit(c) <= ComputeDeadline(c) && c.changes * PerChange(c) <= ComputeDeadline(c)
  {
    hide PerSubmit, PerChange, ComputeDeadline, ClientsFit, FaultsFit, MembershipFits;
    ClientFitsExactly(c);
    MembershipFitsExactly(c);
    FaultsAndSettleFit(c);
  }

  lemma WholeRounds(budget: int, stride: int)
    requires stride > 0 && budget >= 0 && budget % stride == 0
    ensures stride * Rounds(budget, stride) == budget
  {
    var q := budget / stride;
    assert budget == q * stride;
    RoundsOfMultiple(q, stride);
  }

  lemma {:induction false} RoundsOfMultiple(q: nat, stride: int)
    requires stride > 0
    ensures Rounds(q * stride, stride) == q && stride * q == q * stride
  {
    if q > 0 {
      assert q * stride == (q - 1) * stride + stride;
      RoundsOfMultiple(q - 1, stride);
    }
  }

  /** When the polling stride divides both waiting budgets, nothing outlasts the deadline: not a client
      session, the fault schedule, the membership schedule or the final settle, in any world. */
  lemma EverythingFits(c: Config)
    requires Sensible(c)
    requires c.requestDeadline % (2 * c.heartbeat) == 0
    requires (8 * c.electionMax + c.requestDeadline) % (2 * c.heartbeat) == 0
    ensures DeadlineCovers(c)
  {
    WholePrices(c);
    hide PerSubmit, PerChange, DeadlineCovers;
    DeadlineCoversExactly(c);
  }

  /** With draws at the top of their range every fault episode is as long as it can be. */
  lemma {:induction false} LongestFaults(c: Config, n: nat)
    requires Sensible(c)
    ensures FaultTime(c, _ => 3 * c.electionMax, n) == n * (3 * c.electionMax)
    decreases n
  {
    if n > 0 {
      LongestFaults(c, n - 1);
      assert (n - 1) * (3 * c.electionMax) + 3 * c.electionMax == n * (3 * c.electionMax);
    }
  }

  /** The tick is within the chains' reach: some client session, fault schedule or membership schedule ends
      there, or four settles do. */
  ghost predicate Attained(c: Config, t: int)
    requires Sensible(c)
  {
    || (exists w: World :: SessionTime(c, w, c.submits) == t)
    || (exists draws: nat -> int :: FaultTime(c, draws, Episodes(c)) == t)
    || (exists w: World :: MembershipTime(c, w, c.changes) == t)
    || 4 * c.settleTicks == t
  }

  /** Under the same divisibility the deadline is no longer than it must be: short of the two margins added
      at the end, it is the end of the longest chain. */
  lemma HorizonAttained(c: Config)
    requires Sensible(c)
    requires c.requestDeadline % (2 * c.heartbeat) == 0
    requires (8 * c.electionMax + c.requestDeadline) % (2 * c.heartbeat) == 0
    ensures var h := ComputeDeadline(c) - 4 * c.settleTicks - 4 * c.electionMax;
            && Attained(c, h)
            && (forall w: World :: SessionTime(c, w, c.submits) <= h && MembershipTime(c, w, c.changes) <= h)
            && (forall draws: nat -> int :: FaultTime(c, draws, Episodes(c)) <= h)
            && 4 * c.settleTicks <= h
  {
    var h := ComputeDeadline(c) - 4 * c.settleTicks - 4 * c.electionMax;
    WholePrices(c);
    hide PerSubmit, PerChange, SessionTime, MembershipTime, FaultTime, Episodes, Rounds;
    SlowestTime(c, c.submits);
    UnsettledTime(c, c.changes);
    LongestFaults(c, Episodes(c));
    assert c.submits * PerSubmit(c) <= h && c.changes * PerChange(c) <= h && Episodes(c) * (3 * c.electionMax) <= h;
    assert Attained(c, h);
    hide ComputeDeadline, Attained;
    forall w: World ensures SessionTime(c, w, c.submits) <= h && MembershipTime(c, w, c.changes) <= h {
      SessionBound(c, w, c.submits);
      MembershipBound(c, w, c.changes);
    }
    forall draws: nat -> int ensures FaultTime(c, draws, Episodes(c)) <= h {
      FaultBound(c, draws, Episodes(c));
    }
  }

  /** With strides that divide the budgets nobody waits longer than the budgets say. */
  lemma WholePrices(c: Config)
    requires Sensible(c)
    requires c.requestDeadline % (2 * c.heartbeat) == 0
    requires (8 * c.electionMax + c.requestDeadline) % (2 * c.heartbeat) == 0
    ensures PerSubmit(c) == c.gapMax + c.electionMax * 4 + c.requestDeadline
    ensures PerChange(c) == c.electionMax * 12 + c.requestDeadline
  {
    hide Rounds;
    WholeRounds(c.requestDeadline, 2 * c.heartbeat);
    WholeRounds(8 * c.electionMax + c.requestDeadline, 2 * c.heartbeat);
  }

  /** Divisibility is not a formality: with a polling stride of 10 and a request deadline of 1 every
      operation may overrun by 9 ticks, and enough of them outlast the deadline. */
  lemma OverrunOutlastsDeadline()
    ensures var c := Config(100, 0, 0, 1, 5, 1, 0, 0, 0, 0);
            Sensible(c) && exists w: World :: SessionTime(c, w, c.submits) > ComputeDeadline(c)
  {
    var c := Config(100, 0, 0, 1, 5, 1, 0, 0, 0, 0);
    assert Rounds(-9, 10) == 0;
    assert PerSubmit(c) == 14;
    assert ComputeDeadline(c) == 504;
    hide PerSubmit, ComputeDeadline, SessionTime;
    ClientFitsExactly(c);
  }
}
