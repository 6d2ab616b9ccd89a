/** The simulator itself, lists and processes updated in place: mlfq/mlfq.py. */
module FeedbackSimulator {
  import opened FeedbackQueue
  import opened FeedbackRun

  lemma JoinNothing(s: State)
    requires WellFormed(s)
    ensures Join(s, []) == s
  {
    assert s.queues[0] + [] == s.queues[0];
    assert s.queues[0 := s.queues[0]] == s.queues;
    assert Marked(s.started, []) == s.started;
  }

  lemma JoinOne(s: State, list: seq<nat>, p: nat)
    requires WellFormed(s) && Known(s, list + [p]) && Known(s, list)
    ensures p < |s.started|
    ensures var before := Join(s, list);
            Join(s, list + [p]) == before.(queues := before.queues[0 := before.queues[0] + [p]],
                                           started := before.started[p := true])
  {
    assert (list + [p])[|list|] == p;
    assert s.queues[0] + (list + [p]) == s.queues[0] + list + [p];
    assert Marked(s.started, list + [p]) == Marked(s.started, list)[p := true];
  }

  lemma ArrivingNext(s: State, arrival: seq<int>, k: nat)
    requires WellFormed(s) && k < |arrival| == |s.started|
    ensures Known(s, Arriving(s, arrival, k)) && Known(s, Arriving(s, arrival, k + 1))
    ensures var before := Join(s, Arriving(s, arrival, k));
            && before.started[k] == s.started[k] && before.time == s.time
            && Join(s, Arriving(s, arrival, k + 1)) ==
               if !s.started[k] && arrival[k] <= s.time then
                 before.(queues := before.queues[0 := before.queues[0] + [k]],
                         started := before.started[k := true])
               else before
  {
    ArrivingAre(s, arrival, k);
    ArrivingKnown(s, arrival, k);
    ArrivingKnown(s, arrival, k + 1);
    if !s.started[k] && arrival[k] <= s.time {
      JoinOne(s, Arriving(s, arrival, k), k);
    }
  }

  lemma AdmitIsWellFormed(s: State, arrival: seq<int>)
    requires WellFormed(s) && |arrival| == |s.started|
    ensures WellFormed(Admit(s, arrival))
  {
    ArrivingAre(s, arrival, |arrival|);
  }

  lemma GatheredFrom(q: seq<seq<nat>>)
    requires q != []
    ensures Gathered(q, 1) == q
  {
    assert q[..1] == [q[0]] && Flatten([q[0]][..0]) == [];
    assert Flatten([q[0]]) == q[0];
  }

  lemma GatheredNext(q: seq<seq<nat>>, j: nat)
    requires 1 <= j < |q|
    ensures Gathered(q, j + 1) == Gathered(q, j)[0 := Flatten(q[..j]) + q[j]][j := []]
  {
    assert q[..j + 1][..j] == q[..j] && Flatten(q[..j + 1]) == Flatten(q[..j]) + q[j];
    var g, h := Gathered(q, j + 1), Gathered(q, j)[0 := Flatten(q[..j]) + q[j]][j := []];
    hide Flatten;
    forall i | 0 <= i < |q| ensures g[i] == h[i] {
    }
  }

  lemma ServeIsWellFormed(s: State, i: nat)
    requires WellFormed(s) && i < |s.queues| && s.queues[i] != []
    ensures WellFormed(Serve(s, i))
  {
  }

  lemma FlattenIsKnown(s: State)
    requires WellFormed(s)
    ensures forall k | 0 <= k < |Flatten(s.queues)| :: Flatten(s.queues)[k] < |s.burst|
  {
    var f := Flatten(s.queues);
    hide Flatten;
    forall k | 0 <= k < |f| ensures f[k] < |s.burst| {
      FlattenHas(s.queues, f[k]);
    }
  }

  lemma GatheredIsWellFormed(s: State)
    requires WellFormed(s)
    ensures WellFormed(s.(queues := Gathered(s.queues, |s.queues|)))
  {
    hide Flatten;
    FlattenIsKnown(s);
    assert s.queues[..|s.queues|] == s.queues;
  }

  lemma ScheduleIsWellFormed(s: State, interval: nat)
    requires WellFormed(s) && interval >= 1
    ensures WellFormed(Schedule(s, interval))
  {
    var i := FirstNonEmpty(s.queues);
    if i < |s.queues| {
      ServeIsWellFormed(s, i);
      GatheredIsWellFormed(Serve(s, i));
      hide Serve;
      hide Gathered;
      hide WellFormed;
      hide FirstNonEmpty;
    }
  }

  lemma NeverBusyYet(initial: seq<nat>, arrival: seq<int>)
    requires |initial| == |arrival|
    ensures BusyUntil(initial, arrival, 0)
  {
  }

  lemma BusyOn(initial: seq<nat>, arrival: seq<int>, t: nat, end: nat)
    requires |initial| == |arrival| && BusyUntil(initial, arrival, t)
    ensures Busy(initial, arrival, t) ==> BusyUntil(initial, arrival, t + 1)
    ensures !Busy(initial, arrival, t) && t < end ==> !BusyUntil(initial, arrival, end)
  {
  }

  /** Ticks and processes still to come. */
  function Left(s: State, initial: seq<nat>): int {
    Sum(initial) - s.time + |initial| - |s.completed|
  }

  lemma LeftIsNatural(s: State, initial: seq<nat>, arrival: seq<int>)
    requires Running(s, initial, arrival)
    ensures 0 <= Left(s, initial)
  {
    WorkIsBounded(s, initial, arrival);
  }

  /** There is work to do, and a round changes nothing. */
  ghost predicate Stuck(s: State, initial: seq<nat>, arrival: seq<int>, interval: nat)
    requires Placed(s, initial) && |arrival| == |initial| && interval >= 1
  {
    !AllDone(s) && Turn(s, initial, arrival, interval) == s
  }

  lemma GetsStuck(s: State, s': State, initial: seq<nat>, arrival: seq<int>, interval: nat)
    requires Running(s, initial, arrival) && interval >= 1 && BusyUntil(initial, arrival, s.time)
    requires s' == Turn(s, initial, arrival, interval) && !AllDone(s')
    requires s'.time == s.time && |s'.completed| == |s.completed|
    ensures Placed(s', initial) && Stuck(s', initial, arrival, interval)
    ensures !BusyUntil(initial, arrival, Sum(initial))
  {
    TurnKeeps(s, initial, arrival, interval);
    WorkIsBounded(s', initial, arrival);
    BusyOn(initial, arrival, s.time, Sum(initial));
    hide Turn;
    hide AllDone;
    TurnStuck(s, initial, arrival, interval);
  }

  /** `burst`, `started` and `arrival` hold the fields of the processes, which are numbered in the
      order of the list given to `run`. */
  class Simulator {
    var queue: seq<seq<nat>>
    var burst: seq<nat>
    var started: seq<bool>
    var completed: seq<nat>
    var time: nat
    const arrival: seq<int>
    const interval: nat

    function Snapshot(): (s: State)
      reads this
      ensures s.time == time && s.burst == burst && s.completed == completed
    {
      State(queue, burst, started, completed, time)
    }

    ghost predicate Valid()
      reads this
    {
      WellFormed(Snapshot()) && interval >= 1 && |arrival| == |started|
    }

    constructor (arrivals: seq<int>, bursts: seq<nat>, queueNum: nat, reinsertInterval: nat)
      requires queueNum >= 1 && reinsertInterval >= 1 && |arrivals| == |bursts|
      ensures Valid() && Snapshot() == Start(bursts, queueNum)
      ensures arrival == arrivals && interval == reinsertInterval
    {
      queue := Empties(queueNum);
      burst := bursts;
      started := seq(|bursts|, i => false);
      completed := [];
      time := 0;
      arrival := arrivals;
      interval := reinsertInterval;
    }

    /** The loop of lines 59-63. */
    method AdmitArrivals()
      requires Valid()
      modifies this
      ensures Valid() && Snapshot() == Admit(old(Snapshot()), arrival)
    {
      ghost var s := Snapshot();
      JoinNothing(s);
      AdmitIsWellFormed(s, arrival);
      assert Arriving(s, arrival, 0) == [];
      hide WellFormed;
      hide Arriving;
      hide Join;
      hide Known;
      var k := 0;
      while k < |arrival|
        invariant 0 <= k <= |arrival| && Known(s, Arriving(s, arrival, k))
        invariant Snapshot() == Join(s, Arriving(s, arrival, k))
      {
        ArrivingNext(s, arrival, k);
        if !started[k] && arrival[k] <= time {
          queue := queue[0 := queue[0] + [k]];
          started := started[k := true];
        }
        k := k + 1;
      }
    }

    /** The nested loops of lines 38-41. */
    method Reinsert()
      requires |queue| >= 1
      modifies this`queue
      ensures queue == Gathered(old(queue), |old(queue)|)
    {
      GatheredFrom(queue);
      var j := 1;
      while j < |queue|
        invariant 1 <= j <= |queue| == |old(queue)|
        invariant queue == Gathered(old(queue), j)
      {
        GatheredNext(old(queue), j);
        ghost var before := queue;
        assert before[0] + before[j][..0] == before[0];
        var k := 0;
        while k < |queue[j]|
          invariant |queue| == |before| && queue[j] == before[j] && 0 <= k <= |queue[j]|
          invariant queue == before[0 := before[0] + before[j][..k]]
        {
          assert before[0] + before[j][..k + 1] == before[0] + before[j][..k] + [before[j][k]];
          queue := queue[0 := queue[0] + [queue[j][k]]];
          k := k + 1;
        }
        assert before[j][..k] == before[j];
        queue := queue[j := []];
        j := j + 1;
      }
    }

    /** The head of queue `i` runs: lines 21-34. */
    method ServeHead(i: nat)
      requires Valid() && i < |queue| && queue[i] != []
      modifies this
      ensures Snapshot() == Serve(old(Snapshot()), i)
    {
      var process := queue[i][0];
      queue := queue[i := queue[i][1..]];
      if burst[process] <= 1 {
        time := time + burst[process];
        burst := burst[process := 0];
        completed := completed + [process];
      } else {
        time := time + 1;
        burst := burst[process := burst[process] - 1];
        if i + 1 == |queue| {
          queue := queue[i := queue[i] + [process]];
        } else {
          queue := queue[i + 1 := queue[i + 1] + [process]];
        }
      }
    }

    /** `mlfq_schedule`. */
    method ScheduleOne()
      requires Valid()
      modifies this
      ensures Valid() && Snapshot() == Schedule(old(Snapshot()), interval)
    {
      ScheduleIsWellFormed(Snapshot(), interval);
      var i := 0;
      while i < |queue|
        invariant 0 <= i <= FirstNonEmpty(queue)
        invariant Snapshot() == old(Snapshot())
      {
        if queue[i] != [] {
          ServeHead(i);
          hide Serve;
          if time % interval == 0 {
            Reinsert();
          }
          break;
        }
        i := i + 1;
      }
    }

    /** `all(process.burst_time == 0 for process in processes)`. */
    method NothingLeft() returns (all: bool)
      ensures all <==> AllDone(Snapshot())
    {
      var p := 0;
      while p < |burst|
        invariant 0 <= p <= |burst| && forall q | 0 <= q < p :: burst[q] == 0
      {
        if burst[p] != 0 {
          return false;
        }
        p := p + 1;
      }
      all := true;
    }

    /** One round of the loop in `run`. */
    method Round(ghost initial: seq<nat>) returns (done: bool)
      requires Valid() && Running(Snapshot(), initial, arrival)
      modifies this
      ensures Valid() && |arrival| == |initial| && Snapshot() == Turn(old(Snapshot()), initial, arrival, interval)
      ensures Running(Snapshot(), initial, arrival) && old(completed) <= completed
      ensures time == old(time) || (time == old(time) + 1 && Busy(initial, arrival, old(time)))
      ensures done <==> AllDone(Snapshot())
    {
      ghost var s := Snapshot();
      RunningIsPlaced(s, initial, arrival);
      TurnKeeps(s, initial, arrival, interval);
      hide Schedule;
      hide Admit;
      hide Placed;
      hide Running;
      hide WellFormed;
      hide AllDone;
      hide Busy;
      AdmitArrivals();
      ScheduleOne();
      done := NothingLeft();
    }

    /** A round that changes nothing is the first of endlessly many: the loop of the source does not end
        then, and `endless` stands for that. */
    method RoundOrStuck(ghost initial: seq<nat>) returns (done: bool, endless: bool)
      requires Valid() && Running(Snapshot(), initial, arrival) && BusyUntil(initial, arrival, time)
      modifies this
      ensures Valid() && |arrival| == |initial| && Snapshot() == Turn(old(Snapshot()), initial, arrival, interval)
      ensures Running(Snapshot(), initial, arrival) && BusyUntil(initial, arrival, time)
      ensures done <==> AllDone(Snapshot())
      ensures endless ==>
                !done && !BusyUntil(initial, arrival, Sum(initial)) && Stuck(Snapshot(), initial, arrival, interval)
      ensures 0 <= Left(Snapshot(), initial)
      ensures !endless && !done ==> Left(Snapshot(), initial) < Left(old(Snapshot()), initial)
    {
      hide Running;
      hide BusyUntil;
      hide Busy;
      hide AllDone;
      hide Stuck;
      hide Turn;
      ghost var before := Snapshot();
      var start, count := time, |completed|;
      done := Round(initial);
      WorkIsBounded(Snapshot(), initial, arrival);
      BusyOn(initial, arrival, start, Sum(initial));
      endless := !done && time == start && |completed| == count;
      if endless {
        GetsStuck(before, Snapshot(), initial, arrival, interval);
      }
    }

    /** `run`, on a simulator that has not started. The guard of the loop comes last. It ends when no work
        is left, so that processes without work may be missing from the result. */
    method Run(ghost initial: seq<nat>) returns (endless: bool, result: seq<nat>, ghost rounds: nat)
      requires Valid() && Running(Snapshot(), initial, arrival) && time == 0
      modifies this
      ensures Valid() && Running(Snapshot(), initial, arrival)
      ensures rounds >= 1 && Snapshot() == Turns(old(Snapshot()), initial, arrival, interval, rounds)
      ensures endless <==> !BusyUntil(initial, arrival, Sum(initial))
      ensures endless ==> Stuck(Snapshot(), initial, arrival, interval)
      ensures !endless ==>
                && time == Sum(initial) && AllDone(Snapshot())
                && result == completed && HoldsAllWork(Snapshot(), initial)
    {
      ghost var s := Snapshot();
      assert interval >= 1;
      hide *;
      RunningIsPlaced(s, initial, arrival);
      LeftIsNatural(s, initial, arrival);
      TurnsNone(s, initial, arrival, interval);
      NeverBusyYet(initial, arrival);
      var done := false;
      endless, rounds := false, 0;
      while !done && !endless
        invariant Valid() && Running(Snapshot(), initial, arrival) && BusyUntil(initial, arrival, time)
        invariant Snapshot() == Turns(s, initial, arrival, interval, rounds)
        invariant 0 <= Left(Snapshot(), initial) && (done || endless ==> rounds >= 1)
        invariant done ==> !endless && AllDone(Snapshot())
        invariant endless ==>
                    !BusyUntil(initial, arrival, Sum(initial)) && Stuck(Snapshot(), initial, arrival, interval)
        decreases !done && !endless, Left(Snapshot(), initial)
      {
        TurnsNext(s, initial, arrival, interval, rounds);
        done, endless := RoundOrStuck(initial);
        rounds := rounds + 1;
      }
      RunningIsPlaced(Snapshot(), initial, arrival);
      WorkIsBounded(Snapshot(), initial, arrival);
      result := completed;
      if done {
        DoneHasAllWork(Snapshot(), initial);
      }
    }
  }
}
