/** In which queue a process stands, over runs of the feedback queue: mlfq/mlfq.py, lines 17-63. */
module FeedbackLevels {
  import opened FeedbackQueue
  import opened FeedbackFairness

  /** One call of `mlfq_schedule`, after the arrival of some processes. */
  ghost predicate IsCall(s: State, initial: seq<nat>, newcomers: seq<nat>, interval: nat, s': State)
    ensures IsCall(s, initial, newcomers, interval, s') ==>
              && Known(s, newcomers) && WellFormed(s) && WellFormed(Join(s, newcomers)) && Placed(s', initial)
              && interval >= 1 && Placed(s, initial) && Newcomers(s, newcomers)
  {
    && interval >= 1 && Placed(s, initial) && Newcomers(s, newcomers)
    && (CallKeeps(s, initial, newcomers, interval);
        s' == Call(s, newcomers, interval))
  }

  /** Process `p` runs in the call. */
  ghost predicate Ran(s: State, newcomers: seq<nat>, p: nat)
    requires WellFormed(s) && Known(s, newcomers)
  {
    Next(Join(s, newcomers), p)
  }

  /** The call ends at a multiple of the interval, after somebody has run. */
  ghost predicate Gathers(s: State, newcomers: seq<nat>, interval: nat, s': State)
    requires WellFormed(s) && Known(s, newcomers) && interval >= 1
  {
    s'.time % interval == 0 && exists p: nat :: Ran(s, newcomers, p)
  }

  /** The queue below `i`, or `i` itself if it is the last. */
  function Below(i: nat, n: nat): nat
    requires i < n
  {
    if i + 1 < n then i + 1 else i
  }

  /** What a call makes of the queues, before anything is gathered: whoever runs leaves the first place
      of the first queue that is not empty and, with work left, comes last in the one below. */
  ghost predicate Moved(q: seq<seq<nat>>, burst: seq<nat>, r: nat, i: nat, q': seq<seq<nat>>)
    requires i < |q| && q[i] != [] && r < |burst|
  {
    && |q'| == |q| && r == q[i][0] && (forall k | 0 <= k < i :: q[k] == [])
    && forall k | 0 <= k < |q| ::
         q'[k] == (if k == i then q[k][1..] else q[k]) + (if burst[r] >= 2 && k == Below(i, |q|) then [r] else [])
  }

  lemma ServeMovesHead(s: State, r: nat)
    requires WellFormed(s) && Next(s, r)
    ensures var i := FirstNonEmpty(s.queues);
            && i < |s.queues| && s.queues[i] != [] && r < |s.burst|
            && Moved(s.queues, s.burst, r, i, Serve(s, i).queues)
  {
  }

  lemma ScheduleIs(s: State, interval: nat, r: nat)
    requires WellFormed(s) && interval >= 1 && Next(s, r)
    ensures var served := Serve(s, FirstNonEmpty(s.queues));
            && |served.queues| == |s.queues| && Schedule(s, interval).time == served.time
            && Schedule(s, interval).queues ==
               if served.time % interval == 0 then [Flatten(served.queues)] + Empties(|s.queues| - 1)
               else served.queues
  {
    var served := Serve(s, FirstNonEmpty(s.queues));
    assert served.queues[..|served.queues|] == served.queues;
    hide Flatten;
    assert Gathered(served.queues, |served.queues|) == [Flatten(served.queues)] + Empties(|s.queues| - 1);
  }

  /** What a call does to the queues, in terms of the queues alone: newcomers come last in the first
      queue, the process that runs moves, and at a multiple of the interval all queues are put one
      behind the other in the first. */
  lemma CallMoves(s: State, initial: seq<nat>, newcomers: seq<nat>, interval: nat, s': State, r: nat)
    returns (i: nat, moved: seq<seq<nat>>)
    requires IsCall(s, initial, newcomers, interval, s') && Ran(s, newcomers, r)
    ensures |s.queues| >= 1 && r < |s.burst|
    ensures var q := s.queues[0 := s.queues[0] + newcomers];
            && i < |q| && q[i] != [] && Moved(q, s.burst, r, i, moved)
            && s'.queues == if s'.time % interval == 0 then [Flatten(moved)] + Empties(|q| - 1) else moved
  {
    var joined := Join(s, newcomers);
    ServeMovesHead(joined, r);
    ScheduleIs(joined, interval, r);
    hide Serve;
    hide Schedule;
    hide Flatten;
    hide Moved;
    hide FirstNonEmpty;
    i := FirstNonEmpty(joined.queues);
    moved := Serve(joined, i).queues;
  }

  /** A process that is queued once stands in one queue only. */
  lemma OnePlace(q: seq<seq<nat>>, p: nat, i: nat, j: nat)
    requires Queued(q, p) <= 1 && i < |q| && j < |q| && p in q[i] && p in q[j]
    ensures i == j
  {
    assert j != i ==> q[i := []][j] == q[j];
    FlattenUpdate(q, i, [], p);
    FlattenHas(q[i := []], p);
  }

  lemma MovedKeeps(q: seq<seq<nat>>, burst: seq<nat>, r: nat, i: nat, moved: seq<seq<nat>>, p: nat, l: nat)
    requires i < |q| && q[i] != [] && r < |burst| && Moved(q, burst, r, i, moved) && l < |q| && p in q[l]
    ensures r in q[i] && |moved| == |q|
    ensures p != r ==> p in moved[l]
    ensures p == r && l == i && burst[r] >= 2 ==> p in moved[Below(i, |q|)]
  {
    if p != r {
      var x :| 0 <= x < |q[l]| && q[l][x] == p;
      assert l == i ==> q[l][1..][x - 1] == p;
    }
  }

  lemma JoinedHas(s: State, initial: seq<nat>, newcomers: seq<nat>, p: nat)
    requires Placed(s, initial) && Newcomers(s, newcomers)
    ensures Known(s, newcomers) && WellFormed(Join(s, newcomers)) && Placed(Join(s, newcomers), initial)
    ensures Queued(Join(s, newcomers).queues, p) <= 1
    ensures Queued(Join(s, newcomers).queues, p) > 0 <==> Queued(s.queues, p) > 0 || p in newcomers
    ensures p in newcomers ==> !s.started[p]
  {
    JoinKeeps(s, initial, newcomers);
    assert PlacedAt(Join(s, newcomers), initial, p);
  }

  lemma NobodyRuns(s: State, interval: nat)
    requires WellFormed(s) && interval >= 1
    ensures (exists r: nat :: Next(s, r)) || (Schedule(s, interval) == s && forall r: nat :: !Next(s, r))
  {
    if FirstNonEmpty(s.queues) < |s.queues| {
      assert Next(s, s.queues[FirstNonEmpty(s.queues)][0]);
    }
  }

  /** Whoever runs with its last unit of work, or with none, is queued no more. */
  lemma RunsOut(s: State, interval: nat, r: nat)
    requires WellFormed(s) && interval >= 1 && Next(s, r) && r < |s.burst| && s.burst[r] <= 1
    requires Queued(s.queues, r) <= 1
    ensures Queued(Schedule(s, interval).queues, r) == 0
  {
    var i := FirstNonEmpty(s.queues);
    FlattenHas(s.queues, r);
    ServeMoves(s, i, r);
    GatheredFirst(Serve(s, i).queues);
    hide Serve;
    hide Queued;
    hide Gathered;
  }

  /** Whoever is queued after a call was queued before it, or is a newcomer. */
  lemma QueuedBefore(s: State, interval: nat, p: nat)
    requires WellFormed(s) && interval >= 1 && Queued(Schedule(s, interval).queues, p) > 0
    ensures Queued(s.queues, p) > 0
  {
    var i := FirstNonEmpty(s.queues);
    if i < |s.queues| {
      ServeMoves(s, i, p);
      GatheredFirst(Serve(s, i).queues);
      hide Serve;
      hide Queued;
      hide Gathered;
    }
  }

  lemma InFirst(q: seq<seq<nat>>, p: nat)
    requires |q| >= 1 && Queued(q, p) > 0 && forall k | 1 <= k < |q| :: q[k] == []
    ensures p in q[0]
  {
    FlattenHas(q, p);
  }

  lemma OneRuns(s: State, p: nat, r: nat)
    requires Next(s, r)
    ensures Next(s, p) <==> p == r
  {
  }

  /** Where a process stands after a call. */
  lemma CallLevel(s: State, initial: seq<nat>, newcomers: seq<nat>, interval: nat, s': State, p: nat, l: nat)
    requires IsCall(s, initial, newcomers, interval, s') && Queued(s'.queues, p) > 0
    requires |s.queues| >= 1 && l < |s.queues|
    requires if Queued(s.queues, p) > 0 then p in s.queues[l] else l == 0
    ensures |s'.queues| == |s.queues|
    ensures Gathers(s, newcomers, interval, s') ==> p in s'.queues[0]
    ensures !Gathers(s, newcomers, interval, s') ==>
              p in s'.queues[if Ran(s, newcomers, p) then Below(l, |s.queues|) else l]
  {
    hide Queued;
    hide Schedule;
    hide Placed;
    hide Next;
    hide Flatten;
    hide Moved;
    var joined := Join(s, newcomers);
    JoinedHas(s, initial, newcomers, p);
    QueuedBefore(joined, interval, p);
    assert p in joined.queues[l];
    NobodyRuns(joined, interval);
    if exists r: nat :: Next(joined, r) {
      var r: nat :| Next(joined, r);
      assert Ran(s, newcomers, r);
      var i, moved := CallMoves(s, initial, newcomers, interval, s', r);
      MovedKeeps(joined.queues, s.burst, r, i, moved, p, l);
      OneRuns(joined, p, r);
      if s'.time % interval == 0 {
        InFirst(s'.queues, p);
      }
      if p == r {
        OnePlace(joined.queues, p, i, l);
        if s.burst[r] <= 1 {
          RunsOut(joined, interval, r);
        }
      }
    }
  }

  /** A run: `arrivals[k]` joins before call `k`, which leads from `states[k]` to the next state. */
  ghost predicate IsRun(states: seq<State>, arrivals: seq<seq<nat>>, initial: seq<nat>, interval: nat)
    ensures IsRun(states, arrivals, initial, interval) ==> |states| == |arrivals| + 1
  {
    && |states| == |arrivals| + 1 && Placed(states[0], initial) && interval >= 1
    && forall k | 0 <= k < |arrivals| :: IsCall(states[k], initial, arrivals[k], interval, states[k + 1])
  }

  lemma RunIsPlaced(states: seq<State>, arrivals: seq<seq<nat>>, initial: seq<nat>, interval: nat, k: nat)
    requires IsRun(states, arrivals, initial, interval) && k <= |arrivals|
    ensures Placed(states[k], initial)
    ensures k < |arrivals| ==> IsCall(states[k], initial, arrivals[k], interval, states[k + 1])
  {
    hide Placed;
    if k > 0 {
      assert IsCall(states[k - 1], initial, arrivals[k - 1], interval, states[k]);
    }
  }

  /** How many calls have run process `p` since it joined, or since all were last gathered. */
  ghost function Units(
      states: seq<State>, arrivals: seq<seq<nat>>, initial: seq<nat>, interval: nat, p: nat, k: nat): nat
    requires IsRun(states, arrivals, initial, interval) && k <= |arrivals|
  {
    if k == 0 then 0 else
    assert IsCall(states[k - 1], initial, arrivals[k - 1], interval, states[k]);
    if Gathers(states[k - 1], arrivals[k - 1], interval, states[k]) then 0 else
    Units(states, arrivals, initial, interval, p, k - 1) + if Ran(states[k - 1], arrivals[k - 1], p) then 1 else 0
  }

  /** The queue after `n` units: one down for each, as far as there are queues. */
  function Level(n: nat, queues: nat): nat
    requires queues >= 1
  {
    if n < queues then n else queues - 1
  }

  lemma CallKeepsStarted(s: State, initial: seq<nat>, newcomers: seq<nat>, interval: nat, s': State, p: nat)
    requires IsCall(s, initial, newcomers, interval, s')
    ensures |s'.started| == |s.started| && |s'.queues| == |s.queues|
    ensures p < |s.started| && s.started[p] ==> s'.started[p]
    ensures Ran(s, newcomers, p) ==> p < |s.started| && s'.started[p]
  {
    var joined := Join(s, newcomers);
    JoinedHas(s, initial, newcomers, p);
    ScheduleKeeps(joined, initial, interval);
    if Next(joined, p) {
      FlattenHas(joined.queues, p);
      assert PlacedAt(joined, initial, p);
    }
    hide Schedule;
    hide Next;
    hide Flatten;
  }

  /** A process that has not started has had no units. */
  lemma {:induction false} UnitsOfStarted(states: seq<State>, arrivals: seq<seq<nat>>, initial: seq<nat>, interval: nat,
      p: nat, k: nat)
    requires IsRun(states, arrivals, initial, interval) && k <= |arrivals|
    ensures |states[k].started| == |initial| && |states[k].queues| == |states[0].queues| >= 1
    ensures Units(states, arrivals, initial, interval, p, k) > 0 ==> p < |initial| && states[k].started[p]
  {
    hide Placed;
    hide Ran;
    hide Gathers;
    hide IsCall;
    PlacedSizes(states[0], initial);
    if k > 0 {
      UnitsOfStarted(states, arrivals, initial, interval, p, k - 1);
      RunIsPlaced(states, arrivals, initial, interval, k - 1);
      CallKeepsStarted(states[k - 1], initial, arrivals[k - 1], interval, states[k], p);
    }
  }

  lemma PlacedSizes(s: State, initial: seq<nat>)
    requires Placed(s, initial)
    ensures |s.started| == |initial| == |s.burst| && |s.queues| >= 1
  {
  }

  lemma NewcomerOrQueued(s: State, initial: seq<nat>, newcomers: seq<nat>, interval: nat, s': State, p: nat)
    requires IsCall(s, initial, newcomers, interval, s') && Queued(s'.queues, p) > 0
    ensures Queued(s.queues, p) > 0 || (p < |s.started| && !s.started[p])
  {
    var joined := Join(s, newcomers);
    JoinedHas(s, initial, newcomers, p);
    QueuedBefore(joined, interval, p);
    assert PlacedAt(joined, initial, p);
    hide Schedule;
  }

  lemma LevelOf(n: nat, queues: nat)
    requires queues >= 1
    ensures Level(n, queues) < queues
    ensures Level(n, queues) == 0 <==> n == 0 || queues == 1
    ensures Level(0, queues) == 0 && Level(n + 1, queues) == Below(Level(n, queues), queues)
  {
  }

  lemma NoUnits(states: seq<State>, arrivals: seq<seq<nat>>, initial: seq<nat>, interval: nat, p: nat)
    requires IsRun(states, arrivals, initial, interval)
    ensures Units(states, arrivals, initial, interval, p, 0) == 0
  {
  }

  lemma NextUnits(states: seq<State>, arrivals: seq<seq<nat>>, initial: seq<nat>, interval: nat, p: nat, k: nat)
    requires IsRun(states, arrivals, initial, interval) && 0 < k <= |arrivals|
    ensures IsCall(states[k - 1], initial, arrivals[k - 1], interval, states[k])
    ensures Units(states, arrivals, initial, interval, p, k) ==
            if Gathers(states[k - 1], arrivals[k - 1], interval, states[k]) then 0
            else Units(states, arrivals, initial, interval, p, k - 1)
                 + if Ran(states[k - 1], arrivals[k - 1], p) then 1 else 0
  {
    hide IsCall;
  }

  /** Level accounting over runs. From a state in which all queues but the first are empty, such as the
      start or after a gathering, a queued process that has run in `n` calls since it joined, or since
      all were last gathered, stands in queue `n`, or in the last one. */
  lemma {:induction false} LevelIs(states: seq<State>, arrivals: seq<seq<nat>>, initial: seq<nat>, interval: nat,
      p: nat, k: nat)
    requires IsRun(states, arrivals, initial, interval) && k <= |arrivals|
    requires forall i | 1 <= i < |states[0].queues| :: states[0].queues[i] == []
    requires Queued(states[k].queues, p) > 0
    ensures |states[k].queues| >= 1
    ensures p in states[k].queues[Level(Units(states, arrivals, initial, interval, p, k), |states[k].queues|)]
  {
    hide *;
    UnitsOfStarted(states, arrivals, initial, interval, p, k);
    if k == 0 {
      NoUnits(states, arrivals, initial, interval, p);
      InFirst(states[0].queues, p);
      LevelOf(0, |states[0].queues|);
    } else {
      var s, n := states[k - 1], |states[0].queues|;
      var units := Units(states, arrivals, initial, interval, p, k - 1);
      RunIsPlaced(states, arrivals, initial, interval, k - 1);
      UnitsOfStarted(states, arrivals, initial, interval, p, k - 1);
      NewcomerOrQueued(s, initial, arrivals[k - 1], interval, states[k], p);
      if Queued(s.queues, p) > 0 {
        LevelIs(states, arrivals, initial, interval, p, k - 1);
      }
      NextUnits(states, arrivals, initial, interval, p, k);
      LevelOf(units, n);
      CallLevel(s, initial, arrivals[k - 1], interval, states[k], p, Level(units, n));
    }
  }

  ghost predicate StandsBefore(list: seq<nat>, p: nat, q: nat) {
    exists x, y :: 0 <= x < y < |list| && list[x] == p && list[y] == q
  }

  lemma StandsAt(list: seq<nat>, x: nat, y: nat)
    requires x < y < |list|
    ensures StandsBefore(list, list[x], list[y])
  {
  }

  lemma JoinKeepsOrder(list: seq<nat>, more: seq<nat>, p: nat, q: nat)
    requires StandsBefore(list, p, q)
    ensures StandsBefore(list + more, p, q)
  {
    var x, y :| 0 <= x < y < |list| && list[x] == p && list[y] == q;
    StandsAt(list + more, x, y);
  }

  lemma RestKeepsOrder(list: seq<nat>, p: nat, q: nat)
    requires StandsBefore(list, p, q) && list[0] != p
    ensures StandsBefore(list[1..], p, q)
  {
    var x, y :| 0 <= x < y < |list| && list[x] == p && list[y] == q;
    StandsAt(list[1..], x - 1, y - 1);
  }

  lemma MovedKeepsOrder(queues: seq<seq<nat>>, burst: seq<nat>, r: nat, i: nat, moved: seq<seq<nat>>, l: nat,
      p: nat, q: nat)
    requires i < |queues| && queues[i] != [] && r < |burst| && Moved(queues, burst, r, i, moved)
    requires l < |queues| && StandsBefore(queues[l], p, q) && p != r
    ensures l < |moved| && StandsBefore(moved[l], p, q)
  {
    hide StandsBefore;
    var rest := if l == i then queues[l][1..] else queues[l];
    if l == i {
      RestKeepsOrder(queues[l], p, q);
    }
    JoinKeepsOrder(rest, if burst[r] >= 2 && l == Below(i, |queues|) then [r] else [], p, q);
  }

  /** Within a queue the order stays: as long as the process in front does not run and nothing is
      gathered, it stays in front. */
  lemma OrderStays(s: State, initial: seq<nat>, newcomers: seq<nat>, interval: nat, s': State, i: nat, p: nat, q: nat)
    requires IsCall(s, initial, newcomers, interval, s') && i < |s.queues| && StandsBefore(s.queues[i], p, q)
    requires !Gathers(s, newcomers, interval, s') && !Ran(s, newcomers, p)
    ensures i < |s'.queues| && StandsBefore(s'.queues[i], p, q)
  {
    hide StandsBefore;
    hide Schedule;
    hide Moved;
    hide Next;
    hide Flatten;
    var joined := Join(s, newcomers);
    JoinKeepsOrder(s.queues[i], newcomers, p, q);
    NobodyRuns(joined, interval);
    if exists r: nat :: Next(joined, r) {
      var r: nat :| Next(joined, r);
      assert Ran(s, newcomers, r);
      var j, moved := CallMoves(s, initial, newcomers, interval, s', r);
      MovedKeepsOrder(joined.queues, s.burst, r, j, moved, i, p, q);
    }
  }

  ghost predicate IsLast(list: seq<nat>, p: nat) {
    list != [] && list[|list| - 1] == p
  }

  lemma MovedIsLast(q: seq<seq<nat>>, burst: seq<nat>, r: nat, i: nat, moved: seq<seq<nat>>)
    requires i < |q| && q[i] != [] && r < |burst| && Moved(q, burst, r, i, moved) && burst[r] >= 2
    ensures |moved| == |q| && IsLast(moved[Below(i, |q|)], r)
  {
  }

  /** Whoever runs and is still queued comes behind everybody who was in its new queue already. */
  lemma ComesLast(s: State, initial: seq<nat>, newcomers: seq<nat>, interval: nat, s': State, p: nat)
    requires IsCall(s, initial, newcomers, interval, s') && Ran(s, newcomers, p) && Queued(s'.queues, p) > 0
    requires !Gathers(s, newcomers, interval, s')
    ensures exists i :: 0 <= i < |s'.queues| && IsLast(s'.queues[i], p)
  {
    hide Queued;
    hide Schedule;
    hide Next;
    hide Flatten;
    hide Moved;
    hide IsLast;
    var joined := Join(s, newcomers);
    JoinedHas(s, initial, newcomers, p);
    var j, moved := CallMoves(s, initial, newcomers, interval, s', p);
    if s.burst[p] >= 2 {
      MovedIsLast(joined.queues, s.burst, p, j, moved);
    } else {
      RunsOut(joined, interval, p);
    }
  }

  /** With somebody in the first queue, only somebody of the first queue runs. */
  lemma FirstQueueRuns(s: State, x: nat, y: nat)
    requires |s.queues| >= 1 && x in s.queues[0] && Next(s, y)
    ensures y in s.queues[0]
  {
  }

  lemma NewcomerStays(s: State, initial: seq<nat>, newcomers: seq<nat>, interval: nat, s': State, x: nat)
    requires IsCall(s, initial, newcomers, interval, s') && !Ran(s, newcomers, x)
    requires Queued(s.queues, x) > 0 || x in newcomers
    ensures Queued(s'.queues, x) > 0
  {
    hide Placed;
    hide Schedule;
    hide Next;
    JoinedHas(s, initial, newcomers, x);
    ScheduleRunsOrKeeps(Join(s, newcomers), initial, interval, x);
  }

  /** From call `k` to call `j` process `x` does not run, and nothing is gathered. */
  ghost predicate Meanwhile(states: seq<State>, arrivals: seq<seq<nat>>, initial: seq<nat>, interval: nat,
      x: nat, k: nat, j: nat)
    requires IsRun(states, arrivals, initial, interval) && j <= |arrivals|
  {
    forall m | k <= m < j ::
      && IsCall(states[m], initial, arrivals[m], interval, states[m + 1])
      && !Ran(states[m], arrivals[m], x) && !Gathers(states[m], arrivals[m], interval, states[m + 1])
  }

  /** A newcomer that has not run yet is queued, and has had no units. */
  lemma {:induction false} NewcomerWaits(states: seq<State>, arrivals: seq<seq<nat>>, initial: seq<nat>, interval: nat,
      x: nat, k: nat, j: nat)
    requires IsRun(states, arrivals, initial, interval) && k < j <= |arrivals| && x in arrivals[k]
    requires Meanwhile(states, arrivals, initial, interval, x, k, j)
    ensures Queued(states[j].queues, x) > 0 && Units(states, arrivals, initial, interval, x, j) == 0
  {
    hide Placed;
    hide Queued;
    hide Ran;
    hide Gathers;
    hide IsCall;
    RunIsPlaced(states, arrivals, initial, interval, k);
    RunIsPlaced(states, arrivals, initial, interval, j - 1);
    UnitsOfStarted(states, arrivals, initial, interval, x, k);
    JoinedHas(states[k], initial, arrivals[k], x);
    if k < j - 1 {
      NewcomerWaits(states, arrivals, initial, interval, x, k, j - 1);
    }
    NewcomerStays(states[j - 1], initial, arrivals[j - 1], interval, states[j], x);
  }

  /** Units do not get fewer without a gathering. */
  lemma {:induction false} UnitsStay(states: seq<State>, arrivals: seq<seq<nat>>, initial: seq<nat>, interval: nat,
      x: nat, y: nat, k: nat, j: nat)
    requires IsRun(states, arrivals, initial, interval) && k <= j <= |arrivals|
    requires Meanwhile(states, arrivals, initial, interval, x, k, j)
    ensures Units(states, arrivals, initial, interval, y, j) >= Units(states, arrivals, initial, interval, y, k)
  {
    hide Placed;
    hide Ran;
    hide Gathers;
    hide IsCall;
    if k < j {
      UnitsStay(states, arrivals, initial, interval, x, y, k, j - 1);
    }
  }

  /** In the next call process `x` of the first queue comes before `y`, which has had units. */
  lemma RunsAfter(s: State, initial: seq<nat>, newcomers: seq<nat>, interval: nat, s': State, x: nat, y: nat, l: nat)
    requires IsCall(s, initial, newcomers, interval, s') && |s.queues| >= 2 && 1 <= l < |s.queues|
    requires x in newcomers || x in s.queues[0]
    requires y < |s.started| && s.started[y] && (Queued(s.queues, y) > 0 ==> y in s.queues[l])
    ensures !Ran(s, newcomers, y)
  {
    var joined := Join(s, newcomers);
    JoinedHas(s, initial, newcomers, y);
    if Next(joined, y) {
      FirstQueueRuns(joined, x, y);
      FlattenHas(joined.queues, y);
      OnePlace(joined.queues, y, 0, l);
    }
  }

  /** A newcomer goes first. With at least two queues, a process that joins before call `k` runs before
      every process that has run since all were last gathered, unless all are gathered again before. */
  lemma NewcomerGoesFirst(states: seq<State>, arrivals: seq<seq<nat>>, initial: seq<nat>, interval: nat,
      x: nat, y: nat, k: nat, j: nat)
    requires IsRun(states, arrivals, initial, interval) && k <= j < |arrivals| && |states[0].queues| >= 2
    requires forall i | 1 <= i < |states[0].queues| :: states[0].queues[i] == []
    requires x in arrivals[k] && Units(states, arrivals, initial, interval, y, k) >= 1
    requires Meanwhile(states, arrivals, initial, interval, x, k, j)
    ensures WellFormed(states[j]) && Known(states[j], arrivals[j]) && !Ran(states[j], arrivals[j], y)
  {
    hide *;
    RunIsPlaced(states, arrivals, initial, interval, j);
    UnitsOfStarted(states, arrivals, initial, interval, y, j);
    UnitsStay(states, arrivals, initial, interval, x, y, k, j);
    if k < j {
      NewcomerWaits(states, arrivals, initial, interval, x, k, j);
      LevelIs(states, arrivals, initial, interval, x, j);
      LevelOf(0, |states[j].queues|);
    }
    var n := Units(states, arrivals, initial, interval, y, j);
    LevelOf(n, |states[j].queues|);
    if Queued(states[j].queues, y) > 0 {
      LevelIs(states, arrivals, initial, interval, y, j);
    }
    RunsAfter(states[j], initial, arrivals[j], interval, states[j + 1], x, y, Level(n, |states[j].queues|));
  }
}
