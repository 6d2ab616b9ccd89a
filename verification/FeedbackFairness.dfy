/** No starvation in the feedback queue, whatever arrives: mlfq/mlfq.py, lines 17-47. */
module FeedbackFairness {
  import opened FeedbackQueue
  import opened PowersOfTwo

  /** Processes join, then `mlfq_schedule` is called. */
  function Call(s: State, newcomers: seq<nat>, interval: nat): State
    requires WellFormed(s) && interval >= 1 && Known(s, newcomers) && WellFormed(Join(s, newcomers))
  {
    Schedule(Join(s, newcomers), interval)
  }

  lemma CallKeeps(s: State, initial: seq<nat>, newcomers: seq<nat>, interval: nat)
    requires Placed(s, initial) && Newcomers(s, newcomers) && interval >= 1
    ensures Known(s, newcomers) && WellFormed(Join(s, newcomers))
    ensures Placed(Call(s, newcomers, interval), initial)
  {
    JoinKeeps(s, initial, newcomers);
    ScheduleKeeps(Join(s, newcomers), initial, interval);
  }

  /** How many of the first `n` processes brought no work and are not completed. */
  function WithoutWork(initial: seq<nat>, completed: seq<nat>, n: nat): nat
    requires n <= |initial|
  {
    if n == 0 then 0 else
    WithoutWork(initial, completed, n - 1) + if initial[n - 1] == 0 && n - 1 !in completed then 1 else 0
  }

  lemma {:induction false} WithoutWorkShrinks(initial: seq<nat>, completed: seq<nat>, completed': seq<nat>, n: nat)
    requires n <= |initial| && completed <= completed'
    ensures WithoutWork(initial, completed', n) <= WithoutWork(initial, completed, n)
  {
    if n > 0 {
      WithoutWorkShrinks(initial, completed, completed', n - 1);
    }
  }

  lemma {:induction false} OneIsCompleted(initial: seq<nat>, completed: seq<nat>, p: nat, n: nat)
    requires p < n <= |initial| && initial[p] == 0 && p !in completed
    ensures WithoutWork(initial, completed + [p], n) < WithoutWork(initial, completed, n)
  {
    if p < n - 1 {
      OneIsCompleted(initial, completed, p, n - 1);
    } else {
      WithoutWorkShrinks(initial, completed, completed + [p], n - 1);
    }
  }

  lemma {:induction false} AllBroughtWork(initial: seq<nat>, completed: seq<nat>, n: nat)
    requires n <= |initial| && forall p | 0 <= p < n :: initial[p] >= 1
    ensures WithoutWork(initial, completed, n) == 0
  {
    if n > 0 {
      AllBroughtWork(initial, completed, n - 1);
    }
  }

  /** A call makes progress: time passes, or a process without work is completed. */
  lemma ScheduleAdvances(s: State, initial: seq<nat>, interval: nat)
    requires Placed(s, initial) && interval >= 1 && Flatten(s.queues) != []
    ensures var s' := Schedule(s, interval);
            var left := WithoutWork(initial, s.completed, |initial|);
            var left' := WithoutWork(initial, s'.completed, |initial|);
            if Works(s) then s'.time == s.time + 1 && left' <= left else s'.time == s.time && left' < left
  {
    var s' := Schedule(s, interval);
    ScheduleKeeps(s, initial, interval);
    WithoutWorkShrinks(initial, s.completed, s'.completed, |initial|);
    var p: nat :| Next(s, p);
    if !Works(s) {
      NextIsQueued(s, initial, p);
      OneIsCompleted(initial, s.completed, p, |initial|);
    }
  }

  lemma NextIsQueued(s: State, initial: seq<nat>, p: nat)
    requires Placed(s, initial) && Next(s, p)
    ensures p < |initial| && p !in s.completed && (!Works(s) ==> s.burst[p] == 0)
  {
    FlattenHas(s.queues, p);
    assert PlacedAt(s, initial, p);
  }

  /** `arrivals[k]` is what may join before call `k`. */
  ghost predicate Arrivals(s: State, initial: seq<nat>, arrivals: seq<seq<nat>>, interval: nat)
    requires Placed(s, initial) && interval >= 1
    decreases |arrivals|
  {
    arrivals == [] ||
    (Newcomers(s, arrivals[0]) &&
     (CallKeeps(s, initial, arrivals[0], interval);
      Arrivals(Call(s, arrivals[0], interval), initial, arrivals[1..], interval)))
  }

  /** Call `n` runs process `p`. */
  ghost predicate RunsAt(s: State, initial: seq<nat>, arrivals: seq<seq<nat>>, interval: nat, p: nat, n: nat)
    requires Placed(s, initial) && interval >= 1
    requires Arrivals(s, initial, arrivals, interval) && n < |arrivals|
    decreases n
  {
    CallKeeps(s, initial, arrivals[0], interval);
    if n == 0 then Next(Join(s, arrivals[0]), p)
    else RunsAt(Call(s, arrivals[0], interval), initial, arrivals[1..], interval, p, n - 1)
  }

  lemma {:induction false} FlattenPrefix(q: seq<seq<nat>>)
    requires q != []
    ensures q[0] <= Flatten(q)
  {
    if |q| > 1 {
      FlattenPrefix(q[..|q| - 1]);
    } else {
      assert q == [q[0]] && Flatten(q[..0]) == [];
    }
  }

  /** In the first queue everybody moves up by one place with each call. */
  lemma CallAdvances(s: State, newcomers: seq<nat>, interval: nat, k: nat)
    requires WellFormed(s) && interval >= 1 && Known(s, newcomers) && WellFormed(Join(s, newcomers))
    requires 0 < k < |s.queues[0]|
    ensures var first := Call(s, newcomers, interval).queues[0];
            k - 1 < |first| && first[k - 1] == s.queues[0][k]
  {
    var joined := Join(s, newcomers);
    assert FirstNonEmpty(joined.queues) == 0;
    var served := Serve(joined, 0);
    assert k - 1 < |served.queues[0]| && served.queues[0][k - 1] == s.queues[0][k];
    FlattenPrefix(served.queues);
    assert served.queues[..|served.queues|] == served.queues;
  }

  lemma FirstCall(s: State, initial: seq<nat>, arrivals: seq<seq<nat>>, interval: nat, p: nat)
    requires Placed(s, initial) && interval >= 1 && Arrivals(s, initial, arrivals, interval) && arrivals != []
    ensures Newcomers(s, arrivals[0]) && Known(s, arrivals[0]) && WellFormed(Join(s, arrivals[0]))
    ensures var s' := Call(s, arrivals[0], interval);
            Placed(s', initial) && Arrivals(s', initial, arrivals[1..], interval)
    ensures Next(Join(s, arrivals[0]), p) ==> RunsAt(s, initial, arrivals, interval, p, 0)
  {
    CallKeeps(s, initial, arrivals[0], interval);
    hide Call;
    hide Placed;
  }

  lemma RunsOneLater(s: State, initial: seq<nat>, arrivals: seq<seq<nat>>, interval: nat, p: nat, n: nat)
    requires Placed(s, initial) && interval >= 1 && Arrivals(s, initial, arrivals, interval)
    requires n + 1 < |arrivals|
    requires Newcomers(s, arrivals[0]) && Known(s, arrivals[0]) && WellFormed(Join(s, arrivals[0]))
    requires var s' := Call(s, arrivals[0], interval);
             && Placed(s', initial) && Arrivals(s', initial, arrivals[1..], interval)
             && RunsAt(s', initial, arrivals[1..], interval, p, n)
    ensures RunsAt(s, initial, arrivals, interval, p, n + 1)
  {
    hide Call;
    hide Placed;
  }

  lemma FirstIsNext(s: State, newcomers: seq<nat>, p: nat)
    requires WellFormed(s) && Known(s, newcomers) && s.queues[0] != [] && s.queues[0][0] == p
    ensures Next(Join(s, newcomers), p)
  {
    assert FirstNonEmpty(Join(s, newcomers).queues) == 0;
  }

  lemma {:induction false} InFirstQueue(
      s: State, initial: seq<nat>, arrivals: seq<seq<nat>>, interval: nat, p: nat, k: nat) returns (n: nat)
    requires Placed(s, initial) && interval >= 1 && Arrivals(s, initial, arrivals, interval)
    requires k < |s.queues[0]| && s.queues[0][k] == p && k < |arrivals|
    ensures n <= k && RunsAt(s, initial, arrivals, interval, p, n)
    decreases k
  {
    hide *;
    FirstCall(s, initial, arrivals, interval, p);
    if k == 0 {
      FirstIsNext(s, arrivals[0], p);
      n := 0;
    } else {
      CallAdvances(s, arrivals[0], interval, k);
      var m := InFirstQueue(Call(s, arrivals[0], interval), initial, arrivals[1..], interval, p, k - 1);
      RunsOneLater(s, initial, arrivals, interval, p, m);
      n := m + 1;
    }
  }

  lemma SomewhereInFirstQueue(
      s: State, initial: seq<nat>, arrivals: seq<seq<nat>>, interval: nat, p: nat) returns (n: nat)
    requires Placed(s, initial) && interval >= 1 && Arrivals(s, initial, arrivals, interval)
    requires p in s.queues[0] && |s.queues[0]| <= |arrivals|
    ensures n < |s.queues[0]| && RunsAt(s, initial, arrivals, interval, p, n)
  {
    hide Arrivals;
    hide RunsAt;
    hide Placed;
    var k :| 0 <= k < |s.queues[0]| && s.queues[0][k] == p;
    n := InFirstQueue(s, initial, arrivals, interval, p, k);
  }

  /** How many calls to the next time that is a multiple of the interval. */
  function Until(time: nat, interval: nat): (r: nat)
    requires interval >= 1
    ensures 1 <= r <= interval
  {
    interval - time % interval
  }

  lemma NextMultiple(t: nat, r: nat)
    requires r >= 1
    ensures (t + 1) % r == 0 <==> Until(t, r) == 1
    ensures (t + 1) % r != 0 ==> Until(t + 1, r) == Until(t, r) - 1
  {
    hide Pow2;
    var q, m := t / r, t % r;
    if m + 1 == r {
      assert (q + 1) * r == q * r + r;
      DivModUnique(t + 1, r, q + 1, 0);
    } else {
      DivModUnique(t + 1, r, q, m + 1);
    }
  }

  lemma GatheredFirst(q: seq<seq<nat>>)
    requires q != []
    ensures var g := Gathered(q, |q|); g[0] == Flatten(g) && forall p :: Queued(g, p) == Queued(q, p)
  {
    assert q[..|q|] == q;
    FlattenGathered(q);
  }

  /** A call runs `p` or leaves it queued; one that ends at a multiple of the interval leaves
      everybody in the first queue. */
  lemma ScheduleRunsOrKeeps(s: State, initial: seq<nat>, interval: nat, p: nat)
    requires Placed(s, initial) && interval >= 1 && Queued(s.queues, p) > 0
    ensures var s' := Schedule(s, interval);
            || Next(s, p)
            || (&& Queued(s'.queues, p) > 0 && |s'.queues| >= 1
                && (s'.time % interval == 0 ==> s'.queues[0] == Flatten(s'.queues)))
  {
    var i := FirstNonEmpty(s.queues);
    ScheduleKeeps(s, initial, interval);
    FlattenHas(s.queues, p);
    assert i < |s.queues|;
    if s.queues[i][0] != p {
      ServeMoves(s, i, p);
      ServeTakesTime(s, i);
      GatheredFirst(Serve(s, i).queues);
      hide Serve;
      hide PlacedAt;
      hide Placed;
      hide Flatten;
      hide FirstNonEmpty;
      hide Gathered;
      hide Queued;
    }
  }

  lemma QueuedSomebody(q: seq<seq<nat>>, p: nat)
    requires Queued(q, p) > 0
    ensures Flatten(q) != []
  {
  }

  lemma InGathered(s: State, p: nat)
    requires |s.queues| >= 1 && Queued(s.queues, p) > 0 && s.queues[0] == Flatten(s.queues)
    ensures p in s.queues[0]
  {
  }

  lemma CallRunsOrKeeps(s: State, initial: seq<nat>, newcomers: seq<nat>, interval: nat, p: nat)
    requires Placed(s, initial) && Newcomers(s, newcomers) && interval >= 1
    requires Queued(s.queues, p) > 0
    ensures Known(s, newcomers) && WellFormed(Join(s, newcomers))
    ensures var s' := Call(s, newcomers, interval);
            var left := WithoutWork(initial, s.completed, |initial|);
            var left' := WithoutWork(initial, s'.completed, |initial|);
            || Next(Join(s, newcomers), p)
            || (&& Queued(s'.queues, p) > 0 && |s'.queues| >= 1
                && (s'.time % interval == 0 ==> p in s'.queues[0] && |s'.queues[0]| <= |initial|)
                && (if s'.time == s.time then left' < left else s'.time == s.time + 1 && left' <= left))
  {
    hide Next;
    hide Flatten;
    hide Queued;
    hide Placed;
    hide Schedule;
    hide Works;
    hide WithoutWork;
    var joined := Join(s, newcomers);
    CallKeeps(s, initial, newcomers, interval);
    JoinKeeps(s, initial, newcomers);
    QueuedSomebody(joined.queues, p);
    ScheduleRunsOrKeeps(joined, initial, interval, p);
    ScheduleAdvances(joined, initial, interval);
    var s' := Call(s, newcomers, interval);
    QueuedBound(s', initial);
    if !Next(joined, p) && s'.time % interval == 0 {
      InGathered(s', p);
    }
  }

  lemma CallComesCloser(s: State, initial: seq<nat>, newcomers: seq<nat>, interval: nat, p: nat)
    requires Placed(s, initial) && Newcomers(s, newcomers) && interval >= 1
    requires Queued(s.queues, p) > 0
    ensures Known(s, newcomers) && WellFormed(Join(s, newcomers))
    ensures var s' := Call(s, newcomers, interval);
            || Next(Join(s, newcomers), p)
            || (&& Queued(s'.queues, p) > 0 && |s'.queues| >= 1
                && (!(p in s'.queues[0] && |s'.queues[0]| <= |initial|) ==>
                      Until(s'.time, interval) + WithoutWork(initial, s'.completed, |initial|)
                      < Until(s.time, interval) + WithoutWork(initial, s.completed, |initial|)))
  {
    hide *;
    CallRunsOrKeeps(s, initial, newcomers, interval, p);
    NextMultiple(s.time, interval);
  }

  /** Whoever is queued runs within one interval and as many calls again as there are processes, and as
      there are processes without work that are not completed. */
  lemma {:induction false} NoStarvation(
      s: State, initial: seq<nat>, arrivals: seq<seq<nat>>, interval: nat, p: nat) returns (n: nat)
    requires Placed(s, initial) && interval >= 1 && Arrivals(s, initial, arrivals, interval)
    requires Queued(s.queues, p) > 0
    requires |arrivals| >= Until(s.time, interval) + WithoutWork(initial, s.completed, |initial|) + |initial|
    ensures n < Until(s.time, interval) + WithoutWork(initial, s.completed, |initial|) + |initial|
    ensures n < |arrivals| && RunsAt(s, initial, arrivals, interval, p, n)
    decreases |arrivals|
  {
    hide *;
    FirstCall(s, initial, arrivals, interval, p);
    CallComesCloser(s, initial, arrivals[0], interval, p);
    if Next(Join(s, arrivals[0]), p) {
      n := 0;
    } else {
      var s' := Call(s, arrivals[0], interval);
      var m: nat;
      if p in s'.queues[0] && |s'.queues[0]| <= |initial| {
        m := SomewhereInFirstQueue(s', initial, arrivals[1..], interval, p);
      } else {
        m := NoStarvation(s', initial, arrivals[1..], interval, p);
      }
      RunsOneLater(s, initial, arrivals, interval, p, m);
      n := m + 1;
    }
  }

  /** If all processes bring work, within one interval and as many calls again as there are processes. */
  lemma NoStarvationWithWork(
      s: State, initial: seq<nat>, arrivals: seq<seq<nat>>, interval: nat, p: nat) returns (n: nat)
    requires Placed(s, initial) && interval >= 1 && Arrivals(s, initial, arrivals, interval)
    requires Queued(s.queues, p) > 0 && forall q | 0 <= q < |initial| :: initial[q] >= 1
    requires |arrivals| >= Until(s.time, interval) + |initial|
    ensures n < Until(s.time, interval) + |initial| && RunsAt(s, initial, arrivals, interval, p, n)
  {
    hide Placed;
    hide Arrivals;
    hide RunsAt;
    AllBroughtWork(initial, s.completed, |initial|);
    n := NoStarvation(s, initial, arrivals, interval, p);
  }
}
