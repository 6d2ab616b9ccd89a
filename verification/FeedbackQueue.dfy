/** The multi-level feedback queue of mlfq/mlfq.py as a state machine. A process is its position in
    the list given to `run`. */
module FeedbackQueue {
  /** `burst` and `started` are fields of the processes; `queues[0]` has the highest priority. */
  datatype State = State(
    queues: seq<seq<nat>>, burst: seq<nat>, started: seq<bool>, completed: seq<nat>, time: nat)

  /** All queues in one, the highest priority first. */
  function Flatten(q: seq<seq<nat>>): seq<nat> {
    if q == [] then [] else Flatten(q[..|q| - 1]) + q[|q| - 1]
  }

  function Empties(n: nat): (e: seq<seq<nat>>)
    ensures |e| == n && forall i | 0 <= i < n :: e[i] == []
  {
    seq(n, i => [])
  }

  /** The queues after the first `j` have been gathered in queue 0. */
  function Gathered(q: seq<seq<nat>>, j: nat): (g: seq<seq<nat>>)
    requires 1 <= j <= |q|
    ensures |g| == |q|
  {
    [Flatten(q[..j])] + Empties(j - 1) + q[j..]
  }

  function FirstNonEmpty(q: seq<seq<nat>>): (i: nat)
    ensures i <= |q| && (i < |q| ==> q[i] != []) && forall k | 0 <= k < i :: q[k] == []
  {
    if q == [] then 0 else if q[0] != [] then 0 else 1 + FirstNonEmpty(q[1..])
  }

  /** What the scheduler needs to find: a queue to put processes in, and known processes. */
  ghost predicate WellFormed(s: State) {
    && |s.queues| >= 1
    && |s.started| == |s.burst|
    && forall i, k | 0 <= i < |s.queues| && 0 <= k < |s.queues[i]| :: s.queues[i][k] < |s.burst|
  }

  /** The process of queue `i` that comes first runs: to its end, or for one unit. */
  function Serve(s: State, i: nat): State
    requires WellFormed(s) && i < |s.queues| && s.queues[i] != []
  {
    var p := s.queues[i][0];
    var popped := s.queues[i := s.queues[i][1..]];
    if s.burst[p] <= 1 then
      s.(queues := popped, time := s.time + s.burst[p], burst := s.burst[p := 0], completed := s.completed + [p])
    else
      var next := if i + 1 == |s.queues| then i else i + 1;
      s.(queues := popped[next := popped[next] + [p]], time := s.time + 1, burst := s.burst[p := s.burst[p] - 1])
  }

  /** One call of `mlfq_schedule`. */
  function Schedule(s: State, interval: nat): State
    requires WellFormed(s) && interval >= 1
  {
    var i := FirstNonEmpty(s.queues);
    if i == |s.queues| then s else
    var served := Serve(s, i);
    if served.time % interval == 0 then served.(queues := Gathered(served.queues, |served.queues|)) else served
  }

  function Marked(started: seq<bool>, list: seq<nat>): (m: seq<bool>)
    requires forall k | 0 <= k < |list| :: list[k] < |started|
    ensures |m| == |started| && forall p | 0 <= p < |m| :: m[p] == (started[p] || p in list)
  {
    seq(|started|, p requires 0 <= p < |started| => started[p] || p in list)
  }

  ghost predicate Known(s: State, list: seq<nat>) {
    forall k | 0 <= k < |list| :: list[k] < |s.started|
  }

  /** Processes that arrive join the highest priority queue. */
  function Join(s: State, newcomers: seq<nat>): (s': State)
    requires WellFormed(s) && Known(s, newcomers)
    ensures |s'.queues| == |s.queues| && |s'.started| == |s.started| && s'.time == s.time
  {
    s.(queues := s.queues[0 := s.queues[0] + newcomers], started := Marked(s.started, newcomers))
  }

  /** Processes that may arrive: known, not started, and each once. */
  ghost predicate Newcomers(s: State, list: seq<nat>) {
    && (forall k | 0 <= k < |list| :: list[k] < |s.started| && !s.started[list[k]])
    && (forall p: nat :: multiset(list)[p] <= 1)
  }

  function Sum(a: seq<nat>): nat {
    if a == [] then 0 else Sum(a[..|a| - 1]) + a[|a| - 1]
  }

  lemma {:induction false} SumUpdate(a: seq<nat>, i: nat, v: nat)
    requires i < |a|
    ensures Sum(a[i := v]) == Sum(a) - a[i] + v
  {
    if i < |a| - 1 {
      SumUpdate(a[..|a| - 1], i, v);
      assert a[i := v][..|a| - 1] == a[..|a| - 1][i := v];
    } else {
      assert a[i := v][..|a| - 1] == a[..|a| - 1];
    }
  }

  /** How often `p` is queued, over all queues. */
  function Queued(q: seq<seq<nat>>, p: nat): nat {
    multiset(Flatten(q))[p]
  }

  lemma {:induction false} FlattenUpdate(q: seq<seq<nat>>, i: nat, x: seq<nat>, p: nat)
    requires i < |q|
    ensures Queued(q[i := x], p) + multiset(q[i])[p] == Queued(q, p) + multiset(x)[p]
  {
    var n := |q| - 1;
    if i < n {
      FlattenUpdate(q[..n], i, x, p);
      assert q[i := x][..n] == q[..n][i := x];
      assert Flatten(q[i := x]) == Flatten(q[..n][i := x]) + q[n];
    } else {
      assert q[i := x][..n] == q[..n];
      assert Flatten(q[i := x]) == Flatten(q[..n]) + x;
    }
  }

  lemma {:induction false} FlattenEmpties(f: seq<nat>, n: nat)
    ensures Flatten([f] + Empties(n)) == f
  {
    var q := [f] + Empties(n);
    if n == 0 {
      assert Flatten([f][..0]) == [];
    } else {
      FlattenEmpties(f, n - 1);
      assert q[..n] == [f] + Empties(n - 1);
    }
  }

  lemma FlattenGathered(q: seq<seq<nat>>)
    requires q != []
    ensures Flatten(Gathered(q, |q|)) == Flatten(q)
  {
    assert q[..|q|] == q;
    assert Gathered(q, |q|) == [Flatten(q)] + Empties(|q| - 1);
    FlattenEmpties(Flatten(q), |q| - 1);
  }

  lemma {:induction false} FlattenHas(q: seq<seq<nat>>, p: nat)
    ensures Queued(q, p) > 0 <==> exists i :: 0 <= i < |q| && p in q[i]
  {
    if q != [] {
      var n := |q| - 1;
      FlattenHas(q[..n], p);
      assert forall i | 0 <= i < n :: q[..n][i] == q[i];
    }
  }

  /** Process `p` is in exactly one place: not started, in one position of one queue, or completed;
      and if it brought any work, it has some left unless it is completed. `initial` is the work brought
      by each. */
  ghost predicate PlacedAt(s: State, initial: seq<nat>, p: nat)
    requires |s.started| == |s.burst| == |initial|
  {
    var places := Queued(s.queues, p) + multiset(s.completed)[p];
    if p >= |initial| then places == 0
    else if !s.started[p] then places == 0 && s.burst[p] == initial[p]
    else places == 1 && (if initial[p] == 0 then s.burst[p] == 0
                          else multiset(s.completed)[p] == 1 <==> s.burst[p] == 0)
  }

  /** Every process is in exactly one place. */
  ghost predicate Placed(s: State, initial: seq<nat>)
    ensures Placed(s, initial) ==> WellFormed(s) && |s.burst| == |initial|
  {
    && WellFormed(s) && |s.burst| == |initial|
    && forall p: nat :: PlacedAt(s, initial, p)
  }

  lemma QueuedAreKnown(s: State, initial: seq<nat>)
    requires |s.queues| >= 1 && |s.started| == |s.burst| == |initial|
    requires forall p: nat :: PlacedAt(s, initial, p)
    ensures WellFormed(s)
  {
    forall i, k | 0 <= i < |s.queues| && 0 <= k < |s.queues[i]| ensures s.queues[i][k] < |s.burst| {
      FlattenHas(s.queues, s.queues[i][k]);
      assert PlacedAt(s, initial, s.queues[i][k]);
    }
  }

  function Once(p: nat, x: nat): nat {
    if p == x then 1 else 0
  }

  lemma Pop(q: seq<seq<nat>>, i: nat, p: nat)
    requires i < |q| && q[i] != []
    ensures Queued(q[i := q[i][1..]], p) + Once(p, q[i][0]) == Queued(q, p)
  {
    FlattenUpdate(q, i, q[i][1..], p);
    assert q[i] == [q[i][0]] + q[i][1..];
  }

  lemma Append(q: seq<seq<nat>>, i: nat, list: seq<nat>, p: nat)
    requires i < |q|
    ensures Queued(q[i := q[i] + list], p) == Queued(q, p) + multiset(list)[p]
  {
    FlattenUpdate(q, i, q[i] + list, p);
    assert multiset(q[i] + list)[p] == multiset(q[i])[p] + multiset(list)[p];
  }

  /** One process moves, out of its queue into another or to the completed ones. */
  lemma ServeMoves(s: State, i: nat, p: nat)
    requires WellFormed(s) && i < |s.queues| && s.queues[i] != []
    ensures var s', head := Serve(s, i), s.queues[i][0];
            && Queued(s'.queues, p) == Queued(s.queues, p) - (if s.burst[head] <= 1 then Once(p, head) else 0)
            && multiset(s'.completed)[p] == multiset(s.completed)[p] + (if s.burst[head] <= 1 then Once(p, head) else 0)
  {
    var head := s.queues[i][0];
    var popped := s.queues[i := s.queues[i][1..]];
    Pop(s.queues, i, p);
    if s.burst[head] > 1 {
      var next := if i + 1 == |s.queues| then i else i + 1;
      Append(popped, next, [head], p);
    }
  }

  lemma ServeTakesTime(s: State, i: nat)
    requires WellFormed(s) && i < |s.queues| && s.queues[i] != []
    ensures var s', head := Serve(s, i), s.queues[i][0];
            && |s'.queues| == |s.queues| && s'.started == s.started && |s'.burst| == |s.burst|
            && s'.time + Sum(s'.burst) == s.time + Sum(s.burst)
            && (s.burst[head] >= 1 ==> s'.time == s.time + 1 && s'.burst == s.burst[head := s.burst[head] - 1])
            && (s.burst[head] == 0 ==> s'.time == s.time && s'.burst == s.burst)
            && s'.completed == (if s.burst[head] <= 1 then s.completed + [head] else s.completed)
  {
    var head := s.queues[i][0];
    SumUpdate(s.burst, head, if s.burst[head] <= 1 then 0 else s.burst[head] - 1);
  }

  lemma ServeKeepsAt(s: State, i: nat, initial: seq<nat>, p: nat)
    requires WellFormed(s) && i < |s.queues| && s.queues[i] != [] && |initial| == |s.burst|
    requires PlacedAt(s, initial, s.queues[i][0]) && PlacedAt(s, initial, p)
    ensures s.burst[s.queues[i][0]] >= 1 || initial[s.queues[i][0]] == 0
    ensures |Serve(s, i).burst| == |Serve(s, i).started| == |initial| && PlacedAt(Serve(s, i), initial, p)
  {
    var s', head := Serve(s, i), s.queues[i][0];
    FlattenHas(s.queues, head);
    ServeTakesTime(s, i);
    ServeMoves(s, i, p);
    hide Serve;
    hide Queued;
  }

  lemma ServeKeeps(s: State, i: nat, initial: seq<nat>)
    requires Placed(s, initial) && i < |s.queues| && s.queues[i] != []
    ensures Placed(Serve(s, i), initial)
    ensures s.burst[s.queues[i][0]] >= 1 || initial[s.queues[i][0]] == 0
  {
    hide PlacedAt;
    ServeKeepsAt(s, i, initial, 0);
    ServeTakesTime(s, i);
    forall p: nat ensures PlacedAt(Serve(s, i), initial, p) {
      ServeKeepsAt(s, i, initial, p);
    }
    QueuedAreKnown(Serve(s, i), initial);
  }

  lemma GatherKeeps(s: State, initial: seq<nat>)
    requires Placed(s, initial)
    ensures Placed(s.(queues := Gathered(s.queues, |s.queues|)), initial)
  {
    var s' := s.(queues := Gathered(s.queues, |s.queues|));
    FlattenGathered(s.queues);
    hide Gathered;
    hide Flatten;
    forall p: nat ensures PlacedAt(s', initial, p) {
      assert PlacedAt(s, initial, p);
    }
    QueuedAreKnown(s', initial);
  }

  /** Process `p` is the one that the next call runs. */
  ghost predicate Next(s: State, p: nat) {
    var i := FirstNonEmpty(s.queues);
    i < |s.queues| && s.queues[i][0] == p
  }

  /** The next call runs a process that has work left. */
  ghost predicate Works(s: State)
    requires WellFormed(s)
  {
    var i := FirstNonEmpty(s.queues);
    i < |s.queues| && s.burst[s.queues[i][0]] >= 1
  }

  /** A call keeps every process in exactly one place, and time and remaining work add up to the same.
      If anybody is queued, one unit of time passes, unless the process that runs brought no work: then
      it is completed at once. */
  lemma ScheduleKeeps(s: State, initial: seq<nat>, interval: nat)
    requires Placed(s, initial) && interval >= 1
    ensures var s' := Schedule(s, interval);
            && Placed(s', initial)
            && |s'.queues| == |s.queues| && s'.started == s.started
            && s'.time + Sum(s'.burst) == s.time + Sum(s.burst)
            && s'.time == (if Works(s) then s.time + 1 else s.time)
            && s.completed <= s'.completed
            && forall p: nat | Next(s, p) ::
                 p < |initial| && (s.burst[p] == 0 ==> initial[p] == 0 && s'.completed == s.completed + [p])
    ensures Flatten(s.queues) != [] ==> exists p: nat :: Next(s, p)
  {
    var i := FirstNonEmpty(s.queues);
    if i < |s.queues| {
      FlattenHas(s.queues, s.queues[i][0]);
      ServeTakesTime(s, i);
      ServeKeeps(s, i, initial);
      GatherKeeps(Serve(s, i), initial);
      assert Next(s, s.queues[i][0]);
      hide Serve;
      hide Gathered;
      hide Flatten;
      hide Placed;
    } else if Flatten(s.queues) != [] {
      FlattenHas(s.queues, Flatten(s.queues)[0]);
    }
  }

  lemma JoinKeeps(s: State, initial: seq<nat>, newcomers: seq<nat>)
    requires Placed(s, initial) && Newcomers(s, newcomers)
    ensures var s' := Join(s, newcomers);
            && Placed(s', initial)
            && forall p: nat :: Queued(s'.queues, p) == Queued(s.queues, p) + multiset(newcomers)[p]
  {
    var s' := Join(s, newcomers);
    forall p: nat ensures
      PlacedAt(s', initial, p) && Queued(s'.queues, p) == Queued(s.queues, p) + multiset(newcomers)[p]
    {
      Append(s.queues, 0, newcomers, p);
      assert PlacedAt(s, initial, p);
      assert p in newcomers <==> multiset(newcomers)[p] > 0;
    }
    QueuedAreKnown(s', initial);
  }

  /** The processes that are queued are no more than there are. */
  lemma {:induction false} CountBound(m: multiset<nat>, n: nat)
    requires forall p: nat :: m[p] <= if p < n then 1 else 0
    ensures |m| <= n
  {
    if n == 0 {
      assert m == multiset{};
    } else {
      var m' := m[n - 1 := 0];
      CountBound(m', n - 1);
      assert |m| == |m'| + m[n - 1];
    }
  }

  lemma CompletedBound(s: State, initial: seq<nat>)
    requires Placed(s, initial)
    ensures |s.completed| <= |initial|
  {
    var m := multiset(s.completed);
    forall p: nat ensures m[p] <= if p < |initial| then 1 else 0 {
      assert PlacedAt(s, initial, p);
    }
    CountBound(m, |initial|);
  }

  lemma QueuedBound(s: State, initial: seq<nat>)
    requires Placed(s, initial)
    ensures |Flatten(s.queues)| <= |initial|
  {
    var m := multiset(Flatten(s.queues));
    forall p: nat ensures m[p] <= if p < |initial| then 1 else 0 {
      assert PlacedAt(s, initial, p);
    }
    CountBound(m, |initial|);
  }
}
