/** When a simulation ends, and with what: mlfq/mlfq.py, lines 49-73. */
module FeedbackRun {
  import opened FeedbackQueue

  /** The processes before the `k`-th that have arrived but not started, in their order. */
  function Arriving(s: State, arrival: seq<int>, k: nat): seq<nat>
    requires k <= |arrival| == |s.started|
  {
    if k == 0 then [] else
    var before := Arriving(s, arrival, k - 1);
    if !s.started[k - 1] && arrival[k - 1] <= s.time then before + [k - 1] else before
  }

  lemma {:induction false} ArrivingAre(s: State, arrival: seq<int>, k: nat)
    requires k <= |arrival| == |s.started|
    ensures var list := Arriving(s, arrival, k);
            && (forall i | 0 <= i < |list| :: list[i] < k && !s.started[list[i]] && arrival[list[i]] <= s.time)
            && (forall p: nat | p < k && !s.started[p] && arrival[p] <= s.time :: p in list)
            && (forall p: nat :: multiset(list)[p] <= 1)
            && ((forall p | 0 <= p < k :: s.started[p] || arrival[p] > s.time) ==> list == [])
  {
    if k > 0 {
      ArrivingAre(s, arrival, k - 1);
      assert k - 1 !in Arriving(s, arrival, k - 1);
    }
  }

  ghost predicate Ascending(list: seq<nat>, k: nat) {
    (forall i | 0 <= i < |list| :: list[i] < k) && forall i, j | 0 <= i < j < |list| :: list[i] < list[j]
  }

  lemma StaysAscending(list: seq<nat>, k: nat)
    requires Ascending(list, k)
    ensures Ascending(list, k + 1) && Ascending(list + [k], k + 1)
  {
  }

  /** They join in the order of the list given to `run`. */
  lemma {:induction false} ArrivingInOrder(s: State, arrival: seq<int>, k: nat)
    requires k <= |arrival| == |s.started|
    ensures Ascending(Arriving(s, arrival, k), k)
  {
    if k > 0 {
      ArrivingInOrder(s, arrival, k - 1);
      StaysAscending(Arriving(s, arrival, k - 1), k - 1);
    }
  }

  lemma ArrivingKnown(s: State, arrival: seq<int>, k: nat)
    requires k <= |arrival| == |s.started|
    ensures Known(s, Arriving(s, arrival, k)) && Newcomers(s, Arriving(s, arrival, k))
  {
    ArrivingAre(s, arrival, k);
  }

  function Admit(s: State, arrival: seq<int>): State
    requires WellFormed(s) && |arrival| == |s.started|
  {
    ArrivingKnown(s, arrival, |arrival|);
    Join(s, Arriving(s, arrival, |arrival|))
  }

  /** One round of the loop in `run`. */
  function Turn(s: State, initial: seq<nat>, arrival: seq<int>, interval: nat): (s': State)
    requires Placed(s, initial) && |arrival| == |initial| && interval >= 1
    ensures Placed(s', initial)
  {
    ArrivingKnown(s, arrival, |arrival|);
    JoinKeeps(s, initial, Arriving(s, arrival, |arrival|));
    ScheduleKeeps(Admit(s, arrival), initial, interval);
    Schedule(Admit(s, arrival), interval)
  }

  function Turns(s: State, initial: seq<nat>, arrival: seq<int>, interval: nat, n: nat): (s': State)
    requires Placed(s, initial) && |arrival| == |initial| && interval >= 1
    ensures Placed(s', initial)
  {
    if n == 0 then s else Turn(Turns(s, initial, arrival, interval, n - 1), initial, arrival, interval)
  }

  function Start(initial: seq<nat>, queueNum: nat): State {
    State(Empties(queueNum), initial, seq(|initial|, i => false), [], 0)
  }

  predicate AllDone(s: State) {
    forall p | 0 <= p < |s.burst| :: s.burst[p] == 0
  }

  /** The work brought by the first `k` processes that have arrived by `t`. */
  function Arrived(initial: seq<nat>, arrival: seq<int>, t: int, k: nat): nat
    requires k <= |initial| == |arrival|
  {
    if k == 0 then 0 else
    Arrived(initial, arrival, t, k - 1) + if arrival[k - 1] <= t then initial[k - 1] else 0
  }

  /** At time `t` some work that has arrived is left over: more has arrived than could be done. */
  predicate Busy(initial: seq<nat>, arrival: seq<int>, t: nat)
    requires |initial| == |arrival|
  {
    Arrived(initial, arrival, t, |initial|) > t
  }

  ghost predicate BusyUntil(initial: seq<nat>, arrival: seq<int>, end: nat)
    requires |initial| == |arrival|
  {
    forall t: nat | t < end :: Busy(initial, arrival, t)
  }

  /** What holds between two rounds. */
  ghost predicate Running(s: State, initial: seq<nat>, arrival: seq<int>) {
    && Placed(s, initial) && |arrival| == |initial|
    && s.time + Sum(s.burst) == Sum(initial)
    && forall p | 0 <= p < |initial| && s.started[p] :: arrival[p] <= s.time
  }

  lemma {:induction false} FlattenNothing(n: nat)
    ensures Flatten(Empties(n)) == []
  {
    if n > 0 {
      FlattenNothing(n - 1);
      assert Empties(n)[..n - 1] == Empties(n - 1);
    }
  }

  lemma StartIsRunning(initial: seq<nat>, arrival: seq<int>, queueNum: nat)
    requires queueNum >= 1 && |arrival| == |initial|
    ensures Running(Start(initial, queueNum), initial, arrival)
  {
    FlattenNothing(queueNum);
  }

  /** The work left to the first `k` processes, among those that have started. */
  function Backlog(s: State, k: nat): nat
    requires k <= |s.burst| == |s.started|
  {
    if k == 0 then 0 else Backlog(s, k - 1) + if s.started[k - 1] then s.burst[k - 1] else 0
  }

  lemma {:induction false} BacklogIsArrivedMinusDone(s: State, initial: seq<nat>, arrival: seq<int>, k: nat)
    requires Placed(s, initial) && |arrival| == |initial| && k <= |initial|
    requires forall p | 0 <= p < |initial| :: s.started[p] <==> arrival[p] <= s.time
    ensures Backlog(s, k) == Arrived(initial, arrival, s.time, k) - (Sum(initial[..k]) - Sum(s.burst[..k]))
  {
    if k > 0 {
      BacklogIsArrivedMinusDone(s, initial, arrival, k - 1);
      assert initial[..k][..k - 1] == initial[..k - 1] && s.burst[..k][..k - 1] == s.burst[..k - 1];
      assert PlacedAt(s, initial, k - 1);
    }
  }

  lemma {:induction false} BacklogIsZero(s: State, k: nat)
    requires k <= |s.burst| == |s.started|
    ensures Backlog(s, k) == 0 <==> forall p | 0 <= p < k && s.started[p] :: s.burst[p] == 0
  {
    if k > 0 {
      BacklogIsZero(s, k - 1);
    }
  }

  ghost predicate WorkQueued(s: State) {
    exists p: nat :: p < |s.burst| && Queued(s.queues, p) > 0 && s.burst[p] >= 1
  }

  /** A process with work left is queued exactly if work that has arrived is left over. */
  lemma WorkQueuedIff(s: State, initial: seq<nat>, arrival: seq<int>)
    requires Running(s, initial, arrival)
    requires forall p | 0 <= p < |initial| :: s.started[p] <==> arrival[p] <= s.time
    ensures WorkQueued(s) <==> Busy(initial, arrival, s.time)
  {
    var n := |initial|;
    BacklogIsArrivedMinusDone(s, initial, arrival, n);
    BacklogIsZero(s, n);
    assert initial[..n] == initial && s.burst[..n] == s.burst;
    forall p: nat | p < n ensures s.started[p] && s.burst[p] >= 1 <==> Queued(s.queues, p) > 0 && s.burst[p] >= 1 {
      assert PlacedAt(s, initial, p);
    }
  }

  /** Who runs next with work left is queued with work left; if somebody is, somebody runs next. */
  lemma WorksIsQueued(s: State)
    requires WellFormed(s)
    ensures Works(s) ==> WorkQueued(s)
    ensures WorkQueued(s) ==> Flatten(s.queues) != []
  {
    var i := FirstNonEmpty(s.queues);
    if i < |s.queues| {
      FlattenHas(s.queues, s.queues[i][0]);
    }
  }

  lemma EmptyIsStuck(s: State, interval: nat)
    requires WellFormed(s) && interval >= 1 && Flatten(s.queues) == []
    ensures Schedule(s, interval) == s
  {
    var i := FirstNonEmpty(s.queues);
    if i < |s.queues| {
      FlattenHas(s.queues, s.queues[i][0]);
    }
  }

  lemma AdmitKeeps(s: State, initial: seq<nat>, arrival: seq<int>)
    requires Running(s, initial, arrival)
    ensures var s' := Admit(s, arrival);
            && Running(s', initial, arrival) && s'.time == s.time
            && forall p | 0 <= p < |initial| :: s'.started[p] <==> arrival[p] <= s.time
  {
    ArrivingKnown(s, arrival, |arrival|);
    ArrivingAre(s, arrival, |arrival|);
    JoinKeeps(s, initial, Arriving(s, arrival, |arrival|));
    hide Placed;
  }

  lemma AdmitAgain(s: State, arrival: seq<int>)
    requires WellFormed(s) && |arrival| == |s.started|
    requires forall p | 0 <= p < |arrival| :: s.started[p] <==> arrival[p] <= s.time
    ensures Admit(s, arrival) == s
  {
    ArrivingAre(s, arrival, |arrival|);
    assert s.queues[0] + [] == s.queues[0];
    assert s.queues[0 := s.queues[0]] == s.queues;
    assert Marked(s.started, []) == s.started;
  }

  /** A round keeps what holds between rounds. Time passes only if work is left over; and if it is, time
      passes or a process without work is completed. */
  lemma TurnKeeps(s: State, initial: seq<nat>, arrival: seq<int>, interval: nat)
    requires Running(s, initial, arrival) && interval >= 1
    ensures var s' := Turn(s, initial, arrival, interval);
            && Running(s', initial, arrival) && s.completed <= s'.completed
            && (s'.time == s.time || (s'.time == s.time + 1 && Busy(initial, arrival, s.time)))
            && (Busy(initial, arrival, s.time) ==> s'.time > s.time || |s'.completed| > |s.completed|)
  {
    var admitted := Admit(s, arrival);
    AdmitKeeps(s, initial, arrival);
    WorkQueuedIff(admitted, initial, arrival);
    WorksIsQueued(admitted);
    ScheduleKeeps(admitted, initial, interval);
    NextHasWork(admitted);
    assert admitted.completed == s.completed;
    hide Admit;
    hide Schedule;
    hide Placed;
    hide Busy;
    hide Flatten;
    hide WellFormed;
    hide Next;
    hide Works;
    hide WorkQueued;
  }

  lemma NextHasWork(s: State)
    requires WellFormed(s)
    ensures forall p: nat | Next(s, p) :: p < |s.burst| && (s.burst[p] == 0 <==> !Works(s))
  {
  }

  /** A round that neither takes time nor completes a process has found nobody queued, and no further
      round changes anything. */
  lemma TurnStuck(s: State, initial: seq<nat>, arrival: seq<int>, interval: nat)
    requires Running(s, initial, arrival) && interval >= 1
    requires var s' := Turn(s, initial, arrival, interval); s'.time == s.time && |s'.completed| == |s.completed|
    ensures var s' := Turn(s, initial, arrival, interval);
            && !Busy(initial, arrival, s.time)
            && Flatten(s'.queues) == [] && Turn(s', initial, arrival, interval) == s'
  {
    var admitted := Admit(s, arrival);
    AdmitKeeps(s, initial, arrival);
    TurnKeeps(s, initial, arrival, interval);
    ScheduleKeeps(admitted, initial, interval);
    NextHasWork(admitted);
    assert admitted.completed == s.completed;
    assert Flatten(admitted.queues) == [];
    EmptyIsStuck(admitted, interval);
    hide Busy;
    hide Next;
    hide Works;
    AdmitAgain(admitted, arrival);
    hide Admit;
    hide Schedule;
    hide Placed;
    hide Flatten;
    hide WellFormed;
  }

  /** All work is done exactly when as much time has passed as there was work. */
  lemma {:induction false} SumIsZero(a: seq<nat>)
    ensures Sum(a) == 0 <==> forall p | 0 <= p < |a| :: a[p] == 0
  {
    if a != [] {
      SumIsZero(a[..|a| - 1]);
    }
  }

  lemma DoneIff(s: State)
    ensures AllDone(s) <==> Sum(s.burst) == 0
  {
    SumIsZero(s.burst);
  }

  lemma RunningIsPlaced(s: State, initial: seq<nat>, arrival: seq<int>)
    requires Running(s, initial, arrival)
    ensures Placed(s, initial) && |arrival| == |initial|
  {
  }

  lemma TurnsNone(s: State, initial: seq<nat>, arrival: seq<int>, interval: nat)
    requires Placed(s, initial) && |arrival| == |initial| && interval >= 1
    ensures Turns(s, initial, arrival, interval, 0) == s
  {
  }

  lemma TurnsNext(s: State, initial: seq<nat>, arrival: seq<int>, interval: nat, n: nat)
    requires Placed(s, initial) && |arrival| == |initial| && interval >= 1
    ensures Turns(s, initial, arrival, interval, n + 1)
            == Turn(Turns(s, initial, arrival, interval, n), initial, arrival, interval)
  {
  }

  /** Time does not pass beyond a moment at which no work is left over. */
  lemma {:induction false} TimeStops(
      s: State, initial: seq<nat>, arrival: seq<int>, interval: nat, stop: nat, n: nat)
    requires Running(s, initial, arrival) && interval >= 1 && s.time <= stop && !Busy(initial, arrival, stop)
    ensures var s' := Turns(s, initial, arrival, interval, n); Running(s', initial, arrival) && s'.time <= stop
  {
    hide *;
    RunningIsPlaced(s, initial, arrival);
    if n == 0 {
      TurnsNone(s, initial, arrival, interval);
    } else {
      TurnsNext(s, initial, arrival, interval, n - 1);
      TimeStops(s, initial, arrival, interval, stop, n - 1);
      TurnKeeps(Turns(s, initial, arrival, interval, n - 1), initial, arrival, interval);
    }
  }

  lemma StillBusy(initial: seq<nat>, arrival: seq<int>, t: nat)
    requires |initial| == |arrival| && BusyUntil(initial, arrival, Sum(initial))
    ensures t < Sum(initial) ==> Busy(initial, arrival, t)
  {
  }

  /** While work is always left over, every round makes progress until all is done. */
  lemma {:induction false} TimeGoesOn(s: State, initial: seq<nat>, arrival: seq<int>, interval: nat, n: nat)
    requires Running(s, initial, arrival) && interval >= 1 && BusyUntil(initial, arrival, Sum(initial))
    ensures var s' := Turns(s, initial, arrival, interval, n);
            && Running(s', initial, arrival)
            && (s'.time == Sum(initial) || s'.time + |s'.completed| >= n)
  {
    hide *;
    RunningIsPlaced(s, initial, arrival);
    if n == 0 {
      TurnsNone(s, initial, arrival, interval);
    } else {
      var before := Turns(s, initial, arrival, interval, n - 1);
      TurnsNext(s, initial, arrival, interval, n - 1);
      TimeGoesOn(s, initial, arrival, interval, n - 1);
      TurnKeeps(before, initial, arrival, interval);
      WorkIsBounded(before, initial, arrival);
      WorkIsBounded(Turn(before, initial, arrival, interval), initial, arrival);
      StillBusy(initial, arrival, before.time);
    }
  }

  lemma WorkIsBounded(s: State, initial: seq<nat>, arrival: seq<int>)
    requires Running(s, initial, arrival)
    ensures s.time <= Sum(initial) && |s.completed| <= |initial|
    ensures s.time == Sum(initial) <==> AllDone(s)
  {
    CompletedBound(s, initial);
    DoneIff(s);
  }

  /** The loop of `run` ends if and only if, at every moment before all the work is done, more work
      has arrived than time has passed. */
  lemma EndsIff(initial: seq<nat>, arrival: seq<int>, queueNum: nat, interval: nat)
    requires queueNum >= 1 && interval >= 1 && |arrival| == |initial|
    ensures Placed(Start(initial, queueNum), initial)
    ensures (exists n: nat :: n >= 1 && AllDone(Turns(Start(initial, queueNum), initial, arrival, interval, n)))
            <==> BusyUntil(initial, arrival, Sum(initial))
  {
    var s, total := Start(initial, queueNum), Sum(initial);
    StartIsRunning(initial, arrival, queueNum);
    if BusyUntil(initial, arrival, total) {
      var n := total + |initial| + 1;
      TimeGoesOn(s, initial, arrival, interval, n);
      WorkIsBounded(Turns(s, initial, arrival, interval, n), initial, arrival);
      assert AllDone(Turns(s, initial, arrival, interval, n));
    } else {
      var stop: nat :| stop < total && !Busy(initial, arrival, stop);
      forall n: nat ensures !AllDone(Turns(s, initial, arrival, interval, n)) {
        TimeStops(s, initial, arrival, interval, stop, n);
        WorkIsBounded(Turns(s, initial, arrival, interval, n), initial, arrival);
      }
    }
  }

  /** The completed list holds every process that brought work once, and one that did not if it has been
      queued and has run. */
  ghost predicate HoldsAllWork(s: State, initial: seq<nat>)
    requires |s.started| == |initial|
  {
    forall p: nat ::
      multiset(s.completed)[p] ==
      if p < |initial| && (initial[p] >= 1 || (s.started[p] && Queued(s.queues, p) == 0)) then 1 else 0
  }

  lemma DoneHasAllWork(s: State, initial: seq<nat>)
    requires Placed(s, initial) && AllDone(s)
    ensures HoldsAllWork(s, initial)
  {
    forall p: nat
      ensures multiset(s.completed)[p] ==
              if p < |initial| && (initial[p] >= 1 || (s.started[p] && Queued(s.queues, p) == 0)) then 1 else 0
    {
      assert PlacedAt(s, initial, p);
    }
  }

  lemma BothArrive()
    ensures var s := Start([1, 0], 1);
            WellFormed(s) && Admit(s, [0, 0]) == State([[0, 1]], [1, 0], [true, true], [], 0)
  {
    var arrival, s := [0, 0], Start([1, 0], 1);
    hide Join;
    assert WellFormed(s);
    assert Arriving(s, arrival, 0) == [] && Arriving(s, arrival, 1) == [0];
    assert Arriving(s, arrival, 2) == [0, 1];
    BothJoin();
  }

  lemma BothJoin()
    ensures var s := Start([1, 0], 1);
            WellFormed(s) && Known(s, [0, 1]) && Join(s, [0, 1]) == State([[0, 1]], [1, 0], [true, true], [], 0)
  {
    var s := Start([1, 0], 1);
    assert s.queues == [[]] && s.queues[0] + [0, 1] == [0, 1];
    assert 0 in [0, 1] && 1 in [0, 1] && Marked(s.started, [0, 1]) == [true, true];
  }

  lemma FirstRuns()
    ensures var s := State([[0, 1]], [1, 0], [true, true], [], 0);
            WellFormed(s) && Schedule(s, 5) == State([[1]], [0, 0], [true, true], [0], 1)
  {
    var s := State([[0, 1]], [1, 0], [true, true], [], 0);
    assert s.queues[0] == [0, 1];
    assert FirstNonEmpty(s.queues) == 0;
    assert s.queues[0 := s.queues[0][1..]] == [[1]];
  }

  lemma OneQueue(list: seq<nat>)
    ensures Flatten([list]) == list
  {
    assert [list][..0] == [] && Flatten([list][..0]) == [];
  }

  /** Two processes, of which the second brings no work, in one queue: `run` ends after one round, and
      the second is missing. */
  lemma WithoutWorkMissing()
    ensures Placed(Start([1, 0], 1), [1, 0])
    ensures var s' := Turns(Start([1, 0], 1), [1, 0], [0, 0], 5, 1);
            AllDone(s') && s'.completed == [0] && Queued(s'.queues, 1) == 1
  {
    hide Start;
    hide Schedule;
    hide Admit;
    hide Flatten;
    hide Running;
    hide Placed;
    hide Turns;
    var initial, arrival, s := [1, 0], [0, 0], Start([1, 0], 1);
    StartIsRunning(initial, arrival, 1);
    RunningIsPlaced(s, initial, arrival);
    TurnsNone(s, initial, arrival, 5);
    TurnsNext(s, initial, arrival, 5, 0);
    BothArrive();
    FirstRuns();
    OneQueue([1]);
  }
}
