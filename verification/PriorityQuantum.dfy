/** How long a turn lasts in priority round robin, over runs of elections: kernel/core/sched.c, lines
    977-1123. */
module PriorityQuantum {
  import opened PriorityRotation
  import opened PriorityRoundRobin
  import opened Threads

  /** How many elections in a row a thread gets among its equals. One without positive remaining
      capacity, such as a thread of infinite capacity, gets a single one whatever its weight. */
  function Quantum(t: Thread): (q: nat)
    ensures q >= 1
  {
    if t.remainingTimeCapacity > 0 && t.weight >= 1 then t.weight else 1
  }

  /** Whatever an election does: who loses the processor has a whole slice afterwards, who keeps it has
      used one unit of it or begins a new one, and nobody else is touched. */
  lemma SliceAfter(s: Sched, b: Bounds, s': Sched)
    requires Elects(s, b, s') && s.cur != b.idle
    ensures |s'.threads| == |s.threads|
    ensures forall i | 0 <= i < |s.threads| && i != s.cur :: s'.threads[i] == s.threads[i]
    ensures var t, t' := s.threads[s.cur], s'.threads[s.cur];
            && t' == t.(remainingTimeslice := t'.remainingTimeslice)
            && (s'.cur != s.cur ==> t'.remainingTimeslice == t.weight)
            && (s'.cur == s.cur ==>
                  t'.remainingTimeslice == if t.remainingTimeslice >= 2 && t.state == Runnable
                                              && t.remainingTimeCapacity > 0
                                           then t.remainingTimeslice - 1 else t.weight)
  {
  }

  ghost predicate OthersRested(s: Sched, b: Bounds)
    requires b.high <= |s.threads|
  {
    forall i | b.low <= i < b.high && i != s.cur :: s.threads[i].remainingTimeslice == s.threads[i].weight
  }

  /** Over any run, preemptions included, every thread but the current one has a whole slice. */
  lemma {:induction false} OthersAreRested(run: seq<Sched>, b: Bounds, k: nat)
    requires run != [] && IsRun(run, b) && k < |run| && b.low < b.high <= b.idle < |run[0].threads|
    requires OthersRested(run[0], b)
    ensures b.idle < |run[k].threads| && OthersRested(run[k], b)
  {
    if k > 0 {
      OthersAreRested(run, b, k - 1);
      assert Elects(run[k - 1], b, run[k]);
      if run[k - 1].cur != b.idle {
        SliceAfter(run[k - 1], b, run[k]);
      }
    }
  }

  /** The threads that can run, with their priorities, weights and capacities, are the same. */
  ghost predicate SameEquals(s: Sched, s': Sched, b: Bounds)
    requires AtTop(s, b) && AtTop(s', b)
  {
    && |s'.threads| == |s.threads|
    && forall j: nat :: (Equal(s', b, j) <==> Equal(s, b, j))
                   && (Equal(s, b, j) ==> Quantum(s'.threads[j]) == Quantum(s.threads[j]))
  }

  /** A turn begins: nobody has used anything of a slice. */
  ghost predicate Fresh(s: Sched, b: Bounds)
    ensures Fresh(s, b) ==> AtTop(s, b) && s.cur < |s.threads|
  {
    && AtTop(s, b)
    && forall j: nat | Equal(s, b, j) :: s.threads[j].remainingTimeslice == s.threads[j].weight
  }

  /** The current thread has had `k` elections of its turn. */
  ghost predicate InTurn(s: Sched, b: Bounds, k: nat)
    ensures InTurn(s, b, k) ==> AtTop(s, b) && s.cur < |s.threads| && k < Quantum(s.threads[s.cur])
  {
    && AtTop(s, b) && k < Quantum(s.threads[s.cur])
    && s.threads[s.cur].remainingTimeslice == s.threads[s.cur].weight - k
    && forall j: nat | Equal(s, b, j) && j != s.cur :: s.threads[j].remainingTimeslice == s.threads[j].weight
  }

  /** One election of a turn. */
  lemma TurnStep(s: Sched, b: Bounds, s': Sched, k: nat)
    requires InTurn(s, b, k) && Elects(s, b, s')
    ensures AtTop(s', b) && SameEquals(s, s', b)
    ensures k + 1 < Quantum(s.threads[s.cur]) ==> s'.cur == s.cur && s'.prev == s.prev && InTurn(s', b, k + 1)
    ensures k + 1 == Quantum(s.threads[s.cur]) ==> Fresh(s', b) && !Continues(s.threads[s.cur])
  {
    StaysAtTop(s, b, s', 0);
    NextEqual(s, b, s');
    SliceAfter(s, b, s');
    hide Distance;
    hide AtTop;
    assert Continues(s.threads[s.cur]) <==> k + 1 < Quantum(s.threads[s.cur]) by {
      TopIsRunnable(s, b);
    }
  }

  lemma TopIsRunnable(s: Sched, b: Bounds)
    requires AtTop(s, b)
    ensures s.threads[s.cur].state == Runnable && Equal(s, b, s.cur)
  {
  }

  lemma SameAsBefore(s: Sched, s': Sched, s'': Sched, b: Bounds)
    requires AtTop(s, b) && AtTop(s', b) && AtTop(s'', b) && SameEquals(s, s', b) && SameEquals(s', s'', b)
    ensures SameEquals(s, s'', b)
  {
    hide AtTop;
    hide Equal;
  }

  lemma Begins(s: Sched, b: Bounds)
    requires Fresh(s, b)
    ensures InTurn(s, b, 0) && SameEquals(s, s, b)
  {
    TopIsRunnable(s, b);
  }

  lemma {:induction false} TurnGoesOn(run: seq<Sched>, b: Bounds, k: nat)
    requires run != [] && IsRun(run, b) && Fresh(run[0], b)
    requires k < |run| && k < Quantum(run[0].threads[run[0].cur])
    ensures InTurn(run[k], b, k) && SameEquals(run[0], run[k], b)
    ensures run[k].cur == run[0].cur && run[k].prev == run[0].prev
  {
    hide InTurn;
    hide Fresh;
    hide Elects;
    hide Quantum;
    if k == 0 {
      Begins(run[0], b);
    } else {
      TurnGoesOn(run, b, k - 1);
      SameQuantum(run[0], run[k - 1], b);
      assert Elects(run[k - 1], b, run[k]);
      TurnStep(run[k - 1], b, run[k], k - 1);
      SameAsBefore(run[0], run[k - 1], run[k], b);
    }
  }

  lemma SameQuantum(s: Sched, s': Sched, b: Bounds)
    requires AtTop(s, b) && AtTop(s', b) && SameEquals(s, s', b) && s'.cur == s.cur
    ensures Quantum(s'.threads[s'.cur]) == Quantum(s.threads[s.cur])
  {
    TopIsRunnable(s, b);
  }

  /** Thread `j` is the next equal behind the current one, or the current one if there is no other. */
  ghost predicate IsNext(s: Sched, b: Bounds, j: nat)
    requires AtTop(s, b)
  {
    && Equal(s, b, j)
    && (j == s.cur ==> Alone(s, b))
    && forall i: nat | Equal(s, b, i) && i != s.cur ::
         Distance(b.low, b.high, s.cur, j) <= Distance(b.low, b.high, s.cur, i)
  }

  lemma PassesToNext(s: Sched, b: Bounds, s': Sched)
    requires AtTop(s, b) && Elects(s, b, s') && !Continues(s.threads[s.cur])
    ensures Regular(s, b) ==> Regular(s', b) && IsNext(s, b, s'.cur)
    ensures Rotates(s, b) && !Alone(s, b) ==> s'.cur != s.cur && Regular(s', b)
  {
    StaysAtTop(s, b, s', 0);
    NextEqual(s, b, s');
    StillRegular(s, b, s');
    if Rotates(s, b) && !Alone(s, b) {
      var j: nat :| Equal(s, b, j) && j != s.cur;
      PassesOn(s, b, s', j);
    }
  }

  lemma SameSituation(s: Sched, s': Sched, b: Bounds)
    requires AtTop(s, b) && AtTop(s', b) && SameEquals(s, s', b) && s'.cur == s.cur && s'.prev == s.prev
    ensures Regular(s', b) <==> Regular(s, b)
    ensures Alone(s', b) <==> Alone(s, b)
    ensures Rotates(s', b) <==> Rotates(s, b)
    ensures forall j: nat :: IsNext(s', b, j) <==> IsNext(s, b, j)
  {
  }

  /** The quantum over runs. From the beginning of its turn a thread keeps the processor for exactly its
      quantum, and then, if it has equals and the scan does not stick to it, loses it; the turn passes
      to the next equal, with a whole slice. */
  lemma WholeTurn(run: seq<Sched>, b: Bounds)
    requires run != [] && IsRun(run, b) && Fresh(run[0], b)
    ensures var q := Quantum(run[0].threads[run[0].cur]);
            && (forall k | 0 <= k < q && k < |run| :: run[k].cur == run[0].cur)
            && (q < |run| ==>
                  && Fresh(run[q], b) && SameEquals(run[0], run[q], b)
                  && (Regular(run[0], b) ==> Regular(run[q], b) && IsNext(run[0], b, run[q].cur))
                  && (Rotates(run[0], b) && !Alone(run[0], b) ==> run[q].cur != run[0].cur))
  {
    hide *;
    var q := Quantum(run[0].threads[run[0].cur]);
    forall k | 0 <= k < q && k < |run| ensures run[k].cur == run[0].cur {
      TurnGoesOn(run, b, k);
    }
    if q < |run| {
      TurnGoesOn(run, b, q - 1);
      var last := run[q - 1];
      SameQuantum(run[0], last, b);
      RunStep(run, b, q - 1);
      TurnStep(last, b, run[q], q - 1);
      SameAsBefore(run[0], last, run[q], b);
      SameSituation(run[0], last, b);
      PassesToNext(last, b, run[q]);
    }
  }

  lemma RunStep(run: seq<Sched>, b: Bounds, k: nat)
    requires IsRun(run, b) && k + 1 < |run|
    ensures Elects(run[k], b, run[k + 1])
  {
  }

  /** The thread `d` places behind the current one, cyclically. */
  function Behind(s: Sched, b: Bounds, d: nat): (i: nat)
    requires b.low <= s.cur < b.high && d < b.high - b.low
    ensures b.low <= i < b.high && Distance(b.low, b.high, s.cur, i) == d
  {
    if s.cur + d < b.high then s.cur + d else s.cur + d - (b.high - b.low)
  }

  /** The quanta of the equals among the first `d` threads from the current one on. */
  ghost function Work(s: Sched, b: Bounds, d: nat): nat
    requires AtTop(s, b) && d <= b.high - b.low
  {
    if d == 0 then 0 else
    var i := Behind(s, b, d - 1);
    Work(s, b, d - 1) + if Equal(s, b, i) then Quantum(s.threads[i]) else 0
  }

  lemma {:induction false} WorkGrows(s: Sched, b: Bounds, d: nat, e: nat)
    requires AtTop(s, b) && d <= e <= b.high - b.low
    ensures Work(s, b, d) <= Work(s, b, e)
  {
    if d < e {
      WorkGrows(s, b, d, e - 1);
    }
  }

  lemma TurnAfter(low: nat, high: nat, c: nat, d: nat, j: nat, i: nat)
    requires low <= c < high && low <= j < high && low <= i < high
    requires Distance(low, high, c, j) == d
    ensures Distance(low, high, j, i) == var e := Distance(low, high, c, i);
                                         if e >= d then e - d else high - low - d + e
  {
  }

  /** Seen from `c`, the next equal behind the one at distance `d`, if there is none before `e`. */
  lemma NextIs(s: Sched, s': Sched, b: Bounds, d: nat, e: nat, j: nat)
    requires AtTop(s, b) && AtTop(s', b) && SameEquals(s, s', b) && d < e <= b.high - b.low
    requires s'.cur == Behind(s, b, d) && IsNext(s', b, j)
    requires forall k | d < k < e :: !Equal(s, b, Behind(s, b, k))
    requires e < b.high - b.low ==> Equal(s, b, Behind(s, b, e))
    ensures j == if e < b.high - b.low then Behind(s, b, e) else s.cur
  {
    var goal := if e < b.high - b.low then Behind(s, b, e) else s.cur;
    assert Equal(s', b, goal) by {
      TopIsRunnable(s, b);
    }
    var f := Distance(b.low, b.high, s.cur, j);
    assert j == Behind(s, b, f) && Equal(s, b, j);
    TurnAfter(b.low, b.high, s.cur, d, s'.cur, j);
    TurnAfter(b.low, b.high, s.cur, d, s'.cur, goal);
    hide AtTop;
    hide Equal;
    hide Distance;
    hide Behind;
  }

  /** Where, in a run that begins with a turn, the last turn before distance `d` begins. */
  ghost predicate Begun(run: seq<Sched>, b: Bounds, d: nat, last: nat)
    requires run != [] && AtTop(run[0], b)
  {
    var s := run[0];
    && last < d <= b.high - b.low && Equal(s, b, Behind(s, b, last))
    && (forall k | last < k < d :: !Equal(s, b, Behind(s, b, k)))
    && Work(s, b, d) == Work(s, b, last) + Quantum(s.threads[Behind(s, b, last)])
    && (Work(s, b, last) < |run| ==> IsTurn(s, run[Work(s, b, last)], b, Behind(s, b, last)))
  }

  /** A turn of thread `j` among the same equals begins. */
  ghost predicate IsTurn(s: Sched, s': Sched, b: Bounds, j: nat)
    requires AtTop(s, b)
  {
    Fresh(s', b) && Regular(s', b) && SameEquals(s, s', b) && s'.cur == j
  }

  lemma RunSuffix(run: seq<Sched>, b: Bounds, w: nat)
    requires IsRun(run, b) && w < |run|
    ensures IsRun(run[w..], b)
  {
    hide Elects;
    forall k | 0 <= k < |run[w..]| - 1 ensures Elects(run[w..][k], b, run[w..][k + 1]) {
      RunStep(run, b, w + k);
    }
  }

  lemma QuantumOfTurn(s: Sched, s': Sched, b: Bounds, j: nat)
    requires AtTop(s, b) && IsTurn(s, s', b, j) && Equal(s, b, j)
    ensures Quantum(s'.threads[s'.cur]) == Quantum(s.threads[j])
  {
  }

  /** After the last turn before distance `d` begins the turn of the thread there or, after a whole
      round, of the first one again. */
  lemma TurnFollows(run: seq<Sched>, b: Bounds, d: nat, last: nat)
    requires run != [] && IsRun(run, b) && AtTop(run[0], b) && Begun(run, b, d, last)
    requires d < b.high - b.low ==> Equal(run[0], b, Behind(run[0], b, d))
    requires Work(run[0], b, d) < |run|
    ensures IsTurn(run[0], run[Work(run[0], b, d)], b,
                   if d < b.high - b.low then Behind(run[0], b, d) else run[0].cur)
  {
    hide Fresh;
    hide Equal;
    hide AtTop;
    hide Elects;
    hide IsRun;
    hide Work;
    hide Behind;
    hide Quantum;
    hide SameEquals;
    hide IsNext;
    hide Rotates;
    hide Alone;
    hide Regular;
    var s, w := run[0], Work(run[0], b, last);
    var tail, j := run[w..], Behind(s, b, last);
    RunSuffix(run, b, w);
    QuantumOfTurn(s, tail[0], b, j);
    var q := Quantum(tail[0].threads[tail[0].cur]);
    assert w + q == Work(s, b, d) && tail[q] == run[w + q];
    WholeTurn(tail, b);
    SameAsBefore(s, tail[0], tail[q], b);
    NextIs(s, tail[0], b, last, d, tail[q].cur);
  }

  lemma WorkNext(s: Sched, b: Bounds, d: nat)
    requires AtTop(s, b) && d < b.high - b.low
    ensures Work(s, b, d + 1) ==
            Work(s, b, d) + if Equal(s, b, Behind(s, b, d)) then Quantum(s.threads[Behind(s, b, d)]) else 0
  {
  }

  lemma NextBegun(run: seq<Sched>, b: Bounds, d: nat, last: nat)
    requires run != [] && AtTop(run[0], b) && Begun(run, b, d, last) && d < b.high - b.low
    requires Equal(run[0], b, Behind(run[0], b, d)) && Work(run[0], b, d) < |run| ==>
               IsTurn(run[0], run[Work(run[0], b, d)], b, Behind(run[0], b, d))
    ensures Begun(run, b, d + 1, if Equal(run[0], b, Behind(run[0], b, d)) then d else last)
  {
    hide IsTurn;
    hide Quantum;
    hide AtTop;
    hide Equal;
    hide Behind;
    hide Work;
    WorkNext(run[0], b, d);
  }

  lemma {:induction false} TurnsBegin(run: seq<Sched>, b: Bounds, d: nat) returns (last: nat)
    requires run != [] && IsRun(run, b) && Fresh(run[0], b) && Regular(run[0], b) && 1 <= d <= b.high - b.low
    ensures Begun(run, b, d, last)
  {
    hide *;
    var s := run[0];
    if d == 1 {
      last := 0;
      FirstTurn(run, b);
    } else {
      var before := TurnsBegin(run, b, d - 1);
      if Equal(s, b, Behind(s, b, d - 1)) && Work(s, b, d - 1) < |run| {
        TurnFollows(run, b, d - 1, before);
      }
      NextBegun(run, b, d - 1, before);
      last := if Equal(s, b, Behind(s, b, d - 1)) then d - 1 else before;
    }
  }

  lemma FirstTurn(run: seq<Sched>, b: Bounds)
    requires run != [] && Fresh(run[0], b) && Regular(run[0], b)
    ensures b.high - b.low >= 1 && Begun(run, b, 1, 0)
  {
    var s := run[0];
    Begins(s, b);
    TopIsRunnable(s, b);
    assert Behind(s, b, 0) == s.cur && Work(s, b, 0) == 0;
    assert Work(s, b, 1) == Work(s, b, 0) + Quantum(s.threads[s.cur]);
  }

  lemma TurnOf(run: seq<Sched>, b: Bounds, d: nat)
    requires run != [] && IsRun(run, b) && Fresh(run[0], b) && Regular(run[0], b)
    requires d < b.high - b.low && Equal(run[0], b, Behind(run[0], b, d)) && Work(run[0], b, d) < |run|
    ensures IsTurn(run[0], run[Work(run[0], b, d)], b, Behind(run[0], b, d))
  {
    hide Fresh;
    hide Equal;
    hide AtTop;
    hide IsRun;
    hide Work;
    hide Quantum;
    hide IsTurn;
    hide Regular;
    hide Behind;
    var last := TurnsBegin(run, b, d + 1);
    assert last == d;
  }

  /** Exact shares. From the beginning of a turn, the equals of the current thread have their turns one
      after the other in cyclic order, each for exactly its quantum. */
  lemma ExactShares(run: seq<Sched>, b: Bounds, d: nat)
    requires run != [] && IsRun(run, b) && Fresh(run[0], b) && Regular(run[0], b)
    requires d < b.high - b.low && Equal(run[0], b, Behind(run[0], b, d))
    ensures var s, j := run[0], Behind(run[0], b, d);
            && Work(s, b, d + 1) == Work(s, b, d) + Quantum(s.threads[j])
            && forall k | Work(s, b, d) <= k < Work(s, b, d + 1) && k < |run| :: run[k].cur == j
  {
    hide *;
    var s, j, w := run[0], Behind(run[0], b, d), Work(run[0], b, d);
    WorkNext(s, b, d);
    if w < |run| {
      TurnOf(run, b, d);
      RunSuffix(run, b, w);
      TurnLasts(s, run[w..], b, j);
      forall k | w <= k < w + Quantum(s.threads[j]) && k < |run| ensures run[k].cur == j {
        assert run[k] == run[w..][k - w];
      }
    }
  }

  lemma TurnLasts(s: Sched, run: seq<Sched>, b: Bounds, j: nat)
    requires AtTop(s, b) && run != [] && IsRun(run, b) && IsTurn(s, run[0], b, j) && Equal(s, b, j)
    ensures forall k | 0 <= k < Quantum(s.threads[j]) && k < |run| :: run[k].cur == j
  {
    QuantumOfTurn(s, run[0], b, j);
    hide Quantum;
    hide IsRun;
    WholeTurn(run, b);
  }

  /** After as many elections as their quanta add up to the round begins again: in every round each of
      the equals is elected as many times as its quantum says, and nobody else is. */
  lemma RoundRepeats(run: seq<Sched>, b: Bounds)
    requires run != [] && IsRun(run, b) && Fresh(run[0], b) && Regular(run[0], b)
    requires Work(run[0], b, b.high - b.low) < |run|
    ensures IsTurn(run[0], run[Work(run[0], b, b.high - b.low)], b, run[0].cur)
  {
    hide Fresh;
    hide Equal;
    hide AtTop;
    hide IsRun;
    hide Work;
    hide Regular;
    hide IsTurn;
    hide Begun;
    var end := TurnsBegin(run, b, b.high - b.low);
    TurnFollows(run, b, b.high - b.low, end);
  }
}
