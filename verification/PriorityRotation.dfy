/** Rotation among threads of equal priority over runs of elections: kernel/core/sched.c, lines
    977-1123. The scan for an equal starts at the first thread of the partition, and not at the
    current one, while the previous thread is the idle one. */
module PriorityRotation {
  import opened PriorityRoundRobin
  import opened Products
  import opened Threads

  /** What changes from one election to the next: `current_thread` and `prev_thread` of the partition
      as `pok_sched_thread` sets them, and the slices. */
  datatype Sched = Sched(threads: seq<Thread>, prev: nat, cur: nat)

  datatype Bounds = Bounds(low: nat, high: nat, idle: nat, proc: nat)

  ghost predicate Fits(s: Sched, b: Bounds) {
    Scene(s.threads, b.low, b.high, s.prev, s.cur, b.idle)
  }

  ghost predicate Elects(s: Sched, b: Bounds, s': Sched) {
    && Fits(s, b)
    && ElectedPwrr(s.threads, b.low, b.high, s.prev, s.cur, b.idle, b.proc, s'.cur)
    && s'.threads == AfterElection(s.threads, b.low, b.high, s.cur, b.idle, b.proc)
    && s'.prev == if s'.cur != s.cur && s.cur != b.idle then s.cur else s.prev
  }

  ghost predicate IsRun(run: seq<Sched>, b: Bounds) {
    forall k | 0 <= k < |run| - 1 :: Elects(run[k], b, run[k + 1])
  }

  /** The current thread can run and nobody that can has a higher priority. */
  ghost predicate AtTop(s: Sched, b: Bounds)
    ensures AtTop(s, b) ==> Fits(s, b) && b.low <= s.cur < b.high <= b.idle < |s.threads|
  {
    && Fits(s, b) && b.low <= s.cur < b.high && Eligible(s.threads[s.cur], b.proc)
    && !Preempted(s.threads, b.low, b.high, b.proc, s.cur)
  }

  /** Thread `j` can run and has the priority of the current one. */
  ghost predicate Equal(s: Sched, b: Bounds, j: nat)
    requires Fits(s, b)
  {
    b.low <= j < b.high && IsPeer(s.threads, b.proc, s.threads[s.cur].priority, j)
  }

  /** The scan starts at the current thread. */
  predicate Regular(s: Sched, b: Bounds) {
    s.prev != b.idle || s.cur == b.low
  }

  /** The scan leaves the current thread: it starts there, or meets another equal first. */
  ghost predicate Rotates(s: Sched, b: Bounds)
    requires Fits(s, b)
  {
    Regular(s, b) || exists j :: b.low < j < s.cur && Equal(s, b, j)
  }

  ghost predicate SlicesWithin(threads: seq<Thread>, b: Bounds, w: nat)
    requires b.high <= |threads|
  {
    forall i | b.low <= i < b.high :: threads[i].weight <= w && threads[i].remainingTimeslice <= w
  }

  /** Passes of the turn, and elections of the current turn, until `j` must have run. */
  ghost function Wait(s: Sched, b: Bounds, j: nat, w: nat): nat
    requires AtTop(s, b) && b.low <= j < b.high
  {
    (if Regular(s, b) then Distance(b.low, b.high, s.cur, j) else b.high - b.low) * (w + 1)
    + s.threads[s.cur].remainingTimeslice
  }

  /** What one election of an equal leaves as it was. */
  lemma StaysAtTop(s: Sched, b: Bounds, s': Sched, w: nat)
    requires AtTop(s, b) && Elects(s, b, s')
    ensures AtTop(s', b) && Equal(s, b, s'.cur)
    ensures SlicesWithin(s.threads, b, w) ==> SlicesWithin(s'.threads, b, w)
    ensures forall j :: Equal(s', b, j) <==> Equal(s, b, j)
  {
    hide Distance;
  }

  /** Who comes next: the current thread while its slice lasts; then the first equal behind it or,
      if the scan starts at the first thread, the first equal of the partition but for that thread. */
  lemma NextEqual(s: Sched, b: Bounds, s': Sched)
    requires AtTop(s, b) && Elects(s, b, s')
    ensures Continues(s.threads[s.cur]) ==>
              s'.cur == s.cur && s'.threads[s.cur].remainingTimeslice < s.threads[s.cur].remainingTimeslice
    ensures !Continues(s.threads[s.cur]) && Regular(s, b) ==>
              forall j | Equal(s, b, j) && j != s.cur ::
                && s'.cur != s.cur
                && Distance(b.low, b.high, s.cur, s'.cur) <= Distance(b.low, b.high, s.cur, j)
    ensures !Continues(s.threads[s.cur]) && !Regular(s, b) ==>
              forall j | Equal(s, b, j) && j != b.low :: b.low < s'.cur <= j
  {
  }

  lemma Pass(low: nat, high: nat, cur: nat, next: nat, j: nat)
    requires low <= cur < high && low <= next < high && low <= j < high && next != cur && j != cur
    requires Distance(low, high, cur, next) <= Distance(low, high, cur, j)
    ensures Distance(low, high, next, j) < Distance(low, high, cur, j)
  {
  }

  lemma StillRegular(s: Sched, b: Bounds, s': Sched)
    requires Elects(s, b, s') && b.low <= s.cur < b.high
    ensures s'.cur == s.cur ==> (Regular(s', b) <==> Regular(s, b))
    ensures s'.cur != s.cur ==> Regular(s', b)
  {
  }

  lemma StillRotates(s: Sched, b: Bounds, s': Sched)
    requires Fits(s, b) && Fits(s', b) && Rotates(s, b) && s'.cur == s.cur
    requires Regular(s', b) <==> Regular(s, b)
    requires forall j :: Equal(s', b, j) <==> Equal(s, b, j)
    ensures Rotates(s', b)
  {
  }

  /** In rotation, the turn passes on from the current thread when its slice is used up. */
  lemma PassesOn(s: Sched, b: Bounds, s': Sched, j: nat)
    requires AtTop(s, b) && Elects(s, b, s') && Equal(s, b, j) && j != s.cur
    requires Rotates(s, b) && !Continues(s.threads[s.cur])
    ensures s'.cur != s.cur
    ensures Regular(s, b) ==> Distance(b.low, b.high, s.cur, s'.cur) <= Distance(b.low, b.high, s.cur, j)
  {
    NextEqual(s, b, s');
    hide AtTop;
    hide Elects;
    hide Distance;
    if !Regular(s, b) {
      var i :| b.low < i < s.cur && Equal(s, b, i);
      assert s'.cur <= i;
    }
  }

  /** Every election brings the turn of an equal nearer. */
  lemma Approaches(s: Sched, b: Bounds, s': Sched, j: nat, w: nat)
    requires AtTop(s, b) && SlicesWithin(s.threads, b, w) && Elects(s, b, s') && Equal(s, b, j) && j != s.cur
    requires Rotates(s, b)
    ensures AtTop(s', b) && Rotates(s', b)
    ensures Wait(s', b, j, w) < Wait(s, b, j, w)
  {
    NextEqual(s, b, s');
    StaysAtTop(s, b, s', w);
    StillRegular(s, b, s');
    assert s'.threads[s'.cur].remainingTimeslice <= w;
    hide Elects;
    hide Distance;
    hide Equal;
    if Continues(s.threads[s.cur]) {
      StillRotates(s, b, s');
    } else {
      PassesOn(s, b, s', j);
      if Regular(s, b) {
        Pass(b.low, b.high, s.cur, s'.cur, j);
      }
      var next := Distance(b.low, b.high, s'.cur, j);
      OneMore(next, w + 1);
      LessBy(next + 1, if Regular(s, b) then Distance(b.low, b.high, s.cur, j) else b.high - b.low, w + 1);
    }
  }

  ghost predicate Visits(run: seq<Sched>, j: nat) {
    exists k :: 0 <= k < |run| && run[k].cur == j
  }

  lemma WaitsForOthers(s: Sched, b: Bounds, j: nat, w: nat)
    requires AtTop(s, b) && Equal(s, b, j) && j != s.cur
    ensures b.low <= j < b.high && Wait(s, b, j, w) > 0
  {
    OneMore((if Regular(s, b) then Distance(b.low, b.high, s.cur, j) else b.high - b.low) - 1, w + 1);
  }

  /** In rotation, every equal has its turn. */
  lemma {:induction false} Reaches(run: seq<Sched>, b: Bounds, j: nat, w: nat)
    requires run != [] && IsRun(run, b)
    requires AtTop(run[0], b) && SlicesWithin(run[0].threads, b, w) && Rotates(run[0], b) && Equal(run[0], b, j)
    requires |run| > Wait(run[0], b, j, w)
    ensures Visits(run, j)
  {
    hide *;
    if run[0].cur == j {
      Here(run, 0, j);
    } else {
      RunFrom(run, b);
      WaitsForOthers(run[0], b, j, w);
      Approaches(run[0], b, run[1], j, w);
      StaysAtTop(run[0], b, run[1], w);
      Reaches(run[1..], b, j, w);
      LaterVisit(run, j);
    }
  }

  lemma Here(run: seq<Sched>, k: nat, j: nat)
    requires k < |run| && run[k].cur == j
    ensures Visits(run, j)
  {
  }

  lemma LaterVisit(run: seq<Sched>, j: nat)
    requires run != [] && Visits(run[1..], j)
    ensures Visits(run, j)
  {
    var k :| 0 <= k < |run[1..]| && run[1..][k].cur == j;
    Here(run, k + 1, j);
  }

  lemma RunFrom(run: seq<Sched>, b: Bounds)
    requires run != [] && IsRun(run, b)
    ensures IsRun(run[1..], b)
    ensures |run| > 1 ==> Elects(run[0], b, run[1])
  {
    hide Elects;
  }

  /** An upper bound on every wait. */
  function Round(b: Bounds, w: nat): nat
    requires b.low < b.high
  {
    (b.high - b.low) * (w + 1) + w
  }

  lemma WaitBound(s: Sched, b: Bounds, j: nat, w: nat)
    requires AtTop(s, b) && b.low <= j < b.high && SlicesWithin(s.threads, b, w)
    ensures Wait(s, b, j, w) <= Round(b, w)
  {
    hide Distance;
    LessBy(if Regular(s, b) then Distance(b.low, b.high, s.cur, j) else b.high - b.low, b.high - b.low, w + 1);
  }

  /** Out of rotation, the election takes the current thread for its own successor. */
  lemma Sticks(s: Sched, b: Bounds)
    requires AtTop(s, b) && !Rotates(s, b)
    ensures ElectedPwrr(s.threads, b.low, b.high, s.prev, s.cur, b.idle, b.proc, s.cur)
  {
    if !Continues(s.threads[s.cur]) {
      assert IsPeer(s.threads, b.proc, s.threads[s.cur].priority, s.cur);
      assert HasPeer(s.threads, b.low, b.high, b.low, b.proc, s.cur);
      forall j | b.low <= j < b.high && j != b.low && IsPeer(s.threads, b.proc, s.threads[s.cur].priority, j)
        ensures Distance(b.low, b.high, b.low, s.cur) <= Distance(b.low, b.high, b.low, j)
      {
        assert Equal(s, b, j);
      }
    }
  }

  lemma StaysStuck(s: Sched, b: Bounds, s': Sched, w: nat)
    requires AtTop(s, b) && SlicesWithin(s.threads, b, w) && !Rotates(s, b) && Elects(s, b, s')
    ensures s'.cur == s.cur && AtTop(s', b) && !Rotates(s', b)
  {
    NextEqual(s, b, s');
    StaysAtTop(s, b, s', w);
    assert Equal(s, b, s.cur);
  }

  lemma SingleState(s: Sched, b: Bounds)
    ensures IsRun([s], b)
  {
  }

  lemma Prepend(s: Sched, run: seq<Sched>, b: Bounds)
    requires run != [] && IsRun(run, b) && Elects(s, b, run[0])
    ensures IsRun([s] + run, b)
  {
    hide Elects;
    var all := [s] + run;
    forall k | 0 <= k < |all| - 1 ensures Elects(all[k], b, all[k + 1]) {
      if k > 0 {
        assert Elects(run[k - 1], b, run[k]);
      }
    }
  }

  /** A run of any length in which only the current thread is elected. */
  lemma {:induction false} StuckRun(s: Sched, b: Bounds, n: nat, w: nat) returns (run: seq<Sched>)
    requires AtTop(s, b) && SlicesWithin(s.threads, b, w) && !Rotates(s, b)
    ensures |run| == n + 1 && run[0] == s && IsRun(run, b)
    ensures forall k | 0 <= k < |run| :: run[k].cur == s.cur
    decreases n
  {
    hide *;
    if n == 0 {
      run := [s];
      SingleState(s, b);
    } else {
      Sticks(s, b);
      var s' := Successor(s, b);
      StaysStuck(s, b, s', w);
      StaysAtTop(s, b, s', w);
      var rest := StuckRun(s', b, n - 1, w);
      Prepend(s, rest, b);
      run := [s] + rest;
    }
  }

  lemma Successor(s: Sched, b: Bounds) returns (s': Sched)
    requires AtTop(s, b)
    requires ElectedPwrr(s.threads, b.low, b.high, s.prev, s.cur, b.idle, b.proc, s.cur)
    ensures Elects(s, b, s')
  {
    s' := Sched(AfterElection(s.threads, b.low, b.high, s.cur, b.idle, b.proc), s.prev, s.cur);
  }

  /** Every thread of the priority of the current one is elected in every run that is longer than a
      round. */
  ghost predicate AllHaveTurns(s: Sched, b: Bounds, w: nat)
    requires AtTop(s, b)
  {
    forall run, j | run != [] && run[0] == s && IsRun(run, b) && |run| > Round(b, w) && Equal(s, b, j) ::
      Visits(run, j)
  }

  ghost predicate Alone(s: Sched, b: Bounds)
    requires AtTop(s, b)
  {
    forall j | Equal(s, b, j) :: j == s.cur
  }

  /** Rotation among equal priorities: while nothing but slices changes, all threads that can run and
      have the priority of the current one have their turns within a round if and only if the scan
      starts at the current thread, or another of them comes before it and is not the first thread of
      the partition, or there is no other. Otherwise only the current thread is ever elected. */
  lemma RotationIff(s: Sched, b: Bounds, w: nat)
    requires AtTop(s, b) && SlicesWithin(s.threads, b, w)
    ensures AllHaveTurns(s, b, w) <==> Rotates(s, b) || Alone(s, b)
  {
    if Rotates(s, b) {
      forall run, j | run != [] && run[0] == s && IsRun(run, b) && |run| > Round(b, w) && Equal(s, b, j)
        ensures Visits(run, j)
      {
        WaitBound(s, b, j, w);
        Reaches(run, b, j, w);
      }
    } else if Alone(s, b) {
      forall run, j | run != [] && run[0] == s && IsRun(run, b) && |run| > Round(b, w) && Equal(s, b, j)
        ensures Visits(run, j)
      {
        Here(run, 0, j);
      }
    } else {
      var run := StuckRun(s, b, Round(b, w), w);
      var j :| Equal(s, b, j) && j != s.cur;
      assert !Visits(run, j);
    }
  }

  /** Thread `a` was elected while both the current and the previous thread were idle, as they are at
      the start (partition.c:229-233): `c`, of the same priority, never runs. */
  lemma SecondStarves(main: Thread, a: Thread, c: Thread, i: Thread, proc: nat, w: nat)
    requires Eligible(a, proc) && Eligible(c, proc) && !Eligible(main, proc) && a.priority == c.priority
    requires i.priority == 0 && i.remainingTimeslice == 0
    requires forall t | t in [main, a, c] :: t.weight <= w && t.remainingTimeslice <= w
    ensures var s, b := Sched([main, a, c, i], 3, 1), Bounds(0, 3, 3, proc);
            AtTop(s, b) && !Rotates(s, b) && Equal(s, b, 2) && !AllHaveTurns(s, b, w)
  {
    var s, b := Sched([main, a, c, i], 3, 1), Bounds(0, 3, 3, proc);
    assert SlicesWithin(s.threads, b, w);
    assert Equal(s, b, 2);
    RotationIff(s, b, w);
  }
}
