/** Fairness of weighted round robin over runs of elections: kernel/core/sched.c, lines 892-973. */
module RoundRobinFairness {
  import opened RingBuffer
  import opened Threads
  import opened WeightedRoundRobin

  /** How many elections in a row a thread gets. One without positive remaining capacity, such as a
      thread of infinite capacity, gets a single one whatever its weight. */
  function Quantum(t: Entry): (q: nat)
    ensures q >= 1
  {
    if t.hasCapacity && t.weight >= 1 then t.weight else 1
  }

  /** Quanta follow the weights exactly for threads that have capacity left or weight 1. */
  lemma QuantumIsWeightIff(t: Entry)
    requires t.weight >= 1
    ensures Quantum(t) == t.weight <==> t.hasCapacity || t.weight == 1
  {
  }

  ghost predicate Known(e: seq<Entry>, list: seq<nat>) {
    forall k | 0 <= k < |list| :: list[k] < |e|
  }

  /** The threads that take turns, in the order of their indices. */
  function Turns(e: seq<Entry>, low: nat, high: nat): (all: seq<nat>)
    requires high <= |e|
    ensures Known(e, all)
  {
    Ready(e, Range(low, high))
  }

  lemma TurnsAre(e: seq<Entry>, low: nat, high: nat)
    requires high <= |e|
    ensures var all := Turns(e, low, high);
            forall k | 0 <= k < |all| :: low <= all[k] < high && e[all[k]].eligible
  {
    ReadyFrom(e, Range(low, high), low, high);
  }

  /** Nobody has used anything of a slice. Entries of threads that take no turns are arbitrary. */
  ghost predicate Rested(e: seq<Entry>, low: nat, high: nat)
    requires high <= |e|
  {
    forall i | low <= i < high && e[i].eligible :: e[i].slice == e[i].weight && e[i].runnable
  }

  /** The entries while thread `c` has its `left`-th last election. */
  function During(e: seq<Entry>, c: nat, left: nat): (d: seq<Entry>)
    requires c < |e|
    ensures |d| == |e|
  {
    e[c := e[c].(slice := if e[c].hasCapacity && e[c].weight >= 1 then left else e[c].weight)]
  }

  lemma {:induction false} Splits(e: seq<Entry>, low: nat, c: nat, high: nat)
    requires low <= c < high <= |e| && e[c].eligible
    ensures Turns(e, low, high) == Turns(e, low, c) + [c] + Turns(e, c + 1, high)
  {
    assert Range(low, high) == Range(low, c) + [c] + Range(c + 1, high);
    ReadyConcat(e, Range(low, c) + [c], Range(c + 1, high));
    ReadyConcat(e, Range(low, c), [c]);
    ReadySingle(e, c);
  }

  lemma PlaceInTurn(e: seq<Entry>, low: nat, high: nat, p: nat)
    requires low < high <= |e| && p < |Turns(e, low, high)|
    ensures var all := Turns(e, low, high);
            var before, after := Turns(e, low, all[p]), Turns(e, all[p] + 1, high);
            all == before + [all[p]] + after && p == |before|
  {
    var c := Turns(e, low, high)[p];
    TurnsAre(e, low, high);
    TurnsAre(e, low, c);
    TurnsAre(e, c + 1, high);
    Splits(e, low, c, high);
  }

  lemma NextAround<T>(before: seq<T>, c: T, after: seq<T>)
    ensures var all, ready := before + [c] + after, after + before;
            (if ready != [] then ready[0] else c) == all[Next(|before|, |all|)]
  {
    hide Next;
  }

  lemma TestedIs(low: nat, high: nat, c: nat)
    requires low <= c < high && high - low > 1
    ensures Tested(low, high, c) == Range(c + 1, high) + Range(low, c)
  {
    assert Range(c, high)[1..] == Range(c + 1, high);
    assert (Range(c, high) + Range(low, c))[1..] == Range(c, high)[1..] + Range(low, c);
  }

  /** The scan from thread `c` tests the threads after it and then those before it. */
  lemma TestedAround(e: seq<Entry>, low: nat, high: nat, c: nat)
    requires low <= c < high <= |e| && high - low > 1
    ensures Ready(e, Tested(low, high, c)) == Turns(e, c + 1, high) + Turns(e, low, c)
  {
    hide Ready;
    TestedIs(low, high, c);
    ReadyConcat(e, Range(c + 1, high), Range(low, c));
  }

  lemma OnlyOne(e: seq<Entry>, low: nat)
    requires low < |e|
    ensures Turns(e, low, low + 1) == Ready(e, Tested(low, low + 1, low)) == if e[low].eligible then [low] else []
    ensures Next(0, 1) == 0
  {
    ReadySingle(e, low);
    assert Range(low, low + 1) == [low];
  }

  /** After the `p`-th of the threads that take turns comes the next one, cyclically. */
  lemma NextInTurn(e: seq<Entry>, low: nat, high: nat, p: nat)
    requires low < high <= |e| && p < |Turns(e, low, high)|
    ensures var all := Turns(e, low, high);
            var ready := Ready(e, Tested(low, high, all[p]));
            (if ready != [] then ready[0] else all[p]) == all[Next(p, |all|)]
  {
    hide *;
    TurnsAre(e, low, high);
    var c := Turns(e, low, high)[p];
    if high - low == 1 {
      OnlyOne(e, low);
    } else {
      PlaceInTurn(e, low, high, p);
      TestedAround(e, low, high, c);
      NextAround(Turns(e, low, c), c, Turns(e, c + 1, high));
    }
  }

  /** What changes from one election to the next: `current_thread` and `prev_thread` of the partition
      as `pok_sched_thread` sets them, and the slices. */
  datatype Sched = Sched(entries: seq<Entry>, prev: nat, cur: nat)

  datatype Bounds = Bounds(low: nat, high: nat, idle: nat)

  ghost predicate Fits(s: Sched, b: Bounds) {
    Arguments(|s.entries|, b.low, b.high, s.prev, s.cur, b.idle)
  }

  function Step(s: Sched, b: Bounds): (s': Sched)
    requires Fits(s, b)
    ensures Fits(s', b)
  {
    var (t, elected) := Elect(s.entries, b.low, b.high, s.prev, s.cur, b.idle);
    Sched(s.entries[s.cur := t], if elected != s.cur && s.cur != b.idle then s.cur else s.prev, elected)
  }

  /** The state after `n` elections, and whom they elected. */
  function After(s: Sched, b: Bounds, n: nat): (s': Sched)
    requires Fits(s, b)
    ensures Fits(s', b)
  {
    if n == 0 then s else Step(After(s, b, n - 1), b)
  }

  function Elected(s: Sched, b: Bounds, n: nat): (list: seq<nat>)
    requires Fits(s, b)
    ensures |list| == n
  {
    if n == 0 then [] else Elected(s, b, n - 1) + [After(s, b, n).cur]
  }

  lemma {:induction false} Onwards(s: Sched, b: Bounds, m: nat, n: nat)
    requires Fits(s, b)
    ensures After(s, b, m + n) == After(After(s, b, m), b, n)
    ensures Elected(s, b, m + n) == Elected(s, b, m) + Elected(After(s, b, m), b, n)
  {
    hide Step;
    hide Fits;
    if n > 0 {
      Onwards(s, b, m, n - 1);
      var first, rest := Elected(s, b, m), Elected(After(s, b, m), b, n - 1);
      assert first + rest + [After(s, b, m + n).cur] == first + (rest + [After(s, b, m + n).cur]);
    }
  }

  /** In the run on `e`, the `p`-th thread that takes turns has been elected and will be elected
      `left - 1` times more before the next one. */
  ghost predicate InTurn(s: Sched, b: Bounds, e: seq<Entry>, p: nat, left: nat)
    ensures InTurn(s, b, e, p, left) ==>
              Fits(s, b) && b.high <= |e| && p < |Turns(e, b.low, b.high)| && s.cur == Turns(e, b.low, b.high)[p]
  {
    && Fits(s, b) && b.high <= |e| && Rested(e, b.low, b.high)
    && var all := Turns(e, b.low, b.high);
       && p < |all| && 1 <= left <= Quantum(e[all[p]])
       && s.cur == all[p] && s.entries == During(e, all[p], left)
  }

  lemma InTurnIsKnown(s: Sched, b: Bounds, e: seq<Entry>, p: nat, left: nat)
    requires InTurn(s, b, e, p, left)
    ensures var all := Turns(e, b.low, b.high);
            && b.low <= b.high <= |e| && Known(e, all)
            && all[p] < |e| && all[Next(p, |all|)] < |e| && 1 <= left <= Quantum(e[all[p]])
  {
  }

  lemma TurnGoesOn(s: Sched, b: Bounds, e: seq<Entry>, p: nat, left: nat)
    requires InTurn(s, b, e, p, left) && left > 1
    ensures InTurn(Step(s, b), b, e, p, left - 1)
  {
    TurnsAre(e, b.low, b.high);
  }

  lemma TurnPasses(s: Sched, b: Bounds, e: seq<Entry>, p: nat)
    requires InTurn(s, b, e, p, 1)
    ensures var all := Turns(e, b.low, b.high);
            var next := Next(p, |all|);
            InTurn(Step(s, b), b, e, next, Quantum(e[all[next]]))
  {
    var all := Turns(e, b.low, b.high);
    var c := all[p];
    TurnsAre(e, b.low, b.high);
    ReadyDependsOnEligible(e, s.entries, Tested(b.low, b.high, c));
    NextInTurn(e, b.low, b.high, p);
    assert During(e, c, 1)[c := e[c]] == e;
    var n := all[Next(p, |all|)];
    assert During(e, n, Quantum(e[n])) == e;
  }

  /** One election of a run: the turn goes on, or it passes to the next thread. */
  lemma OneElection(s: Sched, b: Bounds, e: seq<Entry>, p: nat, left: nat)
    requires InTurn(s, b, e, p, left)
    ensures var all := Turns(e, b.low, b.high);
            var next := Next(p, |all|);
            if left > 1 then InTurn(Step(s, b), b, e, p, left - 1)
            else InTurn(Step(s, b), b, e, next, Quantum(e[all[next]]))
  {
    hide Step;
    hide Turns;
    hide Next;
    if left > 1 {
      TurnGoesOn(s, b, e, p, left);
    } else {
      TurnPasses(s, b, e, p);
    }
  }

  function Repeat(c: nat, n: nat): (r: seq<nat>)
    ensures |r| == n
  {
    if n == 0 then [] else Repeat(c, n - 1) + [c]
  }

  /** A block of elections for each thread of a list. */
  function Blocks(e: seq<Entry>, list: seq<nat>): seq<nat>
    requires Known(e, list)
  {
    if list == [] then [] else
    var c := list[|list| - 1];
    Blocks(e, list[..|list| - 1]) + Repeat(c, Quantum(e[c]))
  }

  /** The next `m` elections of a turn that has begun. */
  lemma {:induction false} SameThread(s: Sched, b: Bounds, e: seq<Entry>, p: nat, left: nat, m: nat)
    requires InTurn(s, b, e, p, left) && m < left
    ensures InTurn(After(s, b, m), b, e, p, left - m)
    ensures Elected(s, b, m) == Repeat(Turns(e, b.low, b.high)[p], m)
  {
    hide InTurn;
    hide Turns;
    hide Step;
    if m > 0 {
      SameThread(s, b, e, p, left, m - 1);
      OneElection(After(s, b, m - 1), b, e, p, left - (m - 1));
    }
  }

  /** The first `m` elections of the next turn. */
  lemma NextTurn(s: Sched, b: Bounds, e: seq<Entry>, p: nat, m: nat)
    requires InTurn(s, b, e, p, 1)
    requires 1 <= m <= Quantum(e[Turns(e, b.low, b.high)[Next(p, |Turns(e, b.low, b.high)|)]])
    ensures var all := Turns(e, b.low, b.high);
            var next := Next(p, |all|);
            && InTurn(After(s, b, m), b, e, next, Quantum(e[all[next]]) - m + 1)
            && Elected(s, b, m) == Repeat(all[next], m)
  {
    hide *;
    var all := Turns(e, b.low, b.high);
    var next := Next(p, |all|);
    InTurnIsKnown(s, b, e, p, 1);
    OneElection(s, b, e, p, 1);
    Onwards(s, b, 1, m - 1);
    FirstElection(s, b);
    SameThread(Step(s, b), b, e, next, Quantum(e[all[next]]), m - 1);
    OneMoreCopy(all[next], m - 1);
  }

  lemma OneMoreCopy(c: nat, n: nat)
    ensures [c] + Repeat(c, n) == Repeat(c, n + 1)
  {
    if n > 0 {
      OneMoreCopy(c, n - 1);
      assert [c] + (Repeat(c, n - 1) + [c]) == [c] + Repeat(c, n - 1) + [c];
    }
  }

  lemma FirstElection(s: Sched, b: Bounds)
    requires Fits(s, b)
    ensures After(s, b, 1) == Step(s, b) && Elected(s, b, 1) == [Step(s, b).cur]
  {
    assert After(s, b, 0) == s && Elected(s, b, 0) == [];
  }

  function Work(e: seq<Entry>, list: seq<nat>): nat
    requires Known(e, list)
  {
    if list == [] then 0 else Work(e, list[..|list| - 1]) + Quantum(e[list[|list| - 1]])
  }

  lemma OneMoreBlock(e: seq<Entry>, list: seq<nat>, c: nat)
    requires c < |e| && Known(e, list)
    ensures Known(e, list + [c])
    ensures Work(e, list + [c]) == Work(e, list) + Quantum(e[c])
    ensures Blocks(e, list + [c]) == Blocks(e, list) + Repeat(c, Quantum(e[c]))
  {
    assert (list + [c])[..|list|] == list;
  }

  lemma OneMoreTurn(s: Sched, b: Bounds, e: seq<Entry>, list: seq<nat>, q: nat)
    requires Fits(s, b) && Known(e, list)
    requires InTurn(After(s, b, Work(e, list)), b, e, q, 1) && Elected(s, b, Work(e, list)) == Blocks(e, list)
    ensures var all := Turns(e, b.low, b.high);
            var next := Next(q, |all|);
            var more := list + [all[next]];
            && InTurn(After(s, b, Work(e, more)), b, e, next, 1)
            && Elected(s, b, Work(e, more)) == Blocks(e, more)
  {
    hide *;
    var all := Turns(e, b.low, b.high);
    InTurnIsKnown(After(s, b, Work(e, list)), b, e, q, 1);
    var c := all[Next(q, |all|)];
    var before, m := Work(e, list), Quantum(e[c]);
    OneMoreBlock(e, list, c);
    NextTurn(After(s, b, before), b, e, q, m);
    Onwards(s, b, before, m);
  }

  /** All threads that take turns, from the one after the `p`-th round to the `p`-th itself. */
  function Order(all: seq<nat>, p: nat): (order: seq<nat>)
    requires p < |all|
    ensures |order| == |all|
  {
    all[p + 1..] + all[..p + 1]
  }

  lemma TakeNext<T>(s: seq<T>, k: nat)
    requires k < |s|
    ensures s[..k + 1] == s[..k] + [s[k]]
  {
  }

  /** The position of the thread whose turn is the `k`-th after that of thread `p`. */
  function Position(p: nat, k: nat, n: nat): nat
    requires p < n && k <= n
  {
    if k == 0 then p else Slot(Next(p, n), k - 1, n)
  }

  lemma PositionStep(all: seq<nat>, p: nat, k: nat)
    requires p < |all| && k < |all|
    ensures var n := |all|;
            && Position(p, k, n) < n && Next(Position(p, k, n), n) == Position(p, k + 1, n) < n
            && Order(all, p)[k] == all[Position(p, k + 1, n)]
            && Position(p, n, n) == p
  {
  }

  /** `k` whole turns, after the one of thread `p` has ended. */
  lemma {:induction false} WholeTurns(s: Sched, b: Bounds, e: seq<Entry>, p: nat, k: nat)
    requires InTurn(s, b, e, p, 1) && k <= |Turns(e, b.low, b.high)|
    ensures var all := Turns(e, b.low, b.high);
            var order := Order(all, p)[..k];
            && Known(e, order)
            && InTurn(After(s, b, Work(e, order)), b, e, Position(p, k, |all|), 1)
            && Elected(s, b, Work(e, order)) == Blocks(e, order)
  {
    hide *;
    var all := Turns(e, b.low, b.high);
    InTurnIsKnown(s, b, e, p, 1);
    var order := Order(all, p);
    if k == 0 {
      PositionZero(p, |all|);
      NothingYet(s, b, e);
    } else {
      WholeTurns(s, b, e, p, k - 1);
      PositionStep(all, p, k - 1);
      OneMoreTurn(s, b, e, order[..k - 1], Position(p, k - 1, |all|));
      TakeNext(order, k - 1);
      KnownPart(e, all, p, k);
    }
  }

  lemma NothingYet(s: Sched, b: Bounds, e: seq<Entry>)
    requires Fits(s, b)
    ensures Known(e, []) && Work(e, []) == 0 && After(s, b, 0) == s && Elected(s, b, 0) == Blocks(e, [])
  {
  }

  lemma KnownPart(e: seq<Entry>, all: seq<nat>, p: nat, k: nat)
    requires p < |all| && Known(e, all) && k <= |all|
    ensures Known(e, Order(all, p)[..k])
  {
  }

  lemma PositionZero(p: nat, n: nat)
    requires p < n
    ensures Position(p, 0, n) == p
  {
  }

  /** Over as many elections as the quanta of all threads that take turns add up to, from any
      moment of a run: the rest of the current turn, then everybody else's turn in cyclic order of
      the indices, then the current thread's turn up to the same moment, and all is as before. */
  lemma Fairness(s: Sched, b: Bounds, e: seq<Entry>, p: nat, left: nat)
    requires InTurn(s, b, e, p, left)
    ensures var all := Turns(e, b.low, b.high);
            var c, others := all[p], Order(all, p)[..|all| - 1];
            var total := Work(e, all);
            && Known(e, others)
            && left <= Quantum(e[c])
            && Elected(s, b, total) == Repeat(c, left - 1) + Blocks(e, others) + Repeat(c, Quantum(e[c]) - left + 1)
            && InTurn(After(s, b, total), b, e, p, left)
            && After(s, b, total).entries == s.entries && After(s, b, total).cur == s.cur
  {
    hide *;
    var all := Turns(e, b.low, b.high);
    InTurnIsKnown(s, b, e, p, left);
    var n := |all|;
    var c, others := all[p], Order(all, p)[..n - 1];
    var q := Quantum(e[c]);
    WorkOfOrder(e, all, p);
    PositionStep(all, p, n - 1);
    SameThread(s, b, e, p, left, left - 1);
    var s1 := After(s, b, left - 1);
    WholeTurns(s1, b, e, p, n - 1);
    var s2 := After(s1, b, Work(e, others));
    NextTurn(s2, b, e, Position(p, n - 1, n), q - left + 1);
    Onwards(s, b, left - 1, Work(e, others));
    Onwards(s, b, left - 1 + Work(e, others), q - left + 1);
    SameMoment(s, After(s, b, Work(e, all)), b, e, p, left);
  }

  lemma SameMoment(s: Sched, s': Sched, b: Bounds, e: seq<Entry>, p: nat, left: nat)
    requires InTurn(s, b, e, p, left) && InTurn(s', b, e, p, left)
    ensures s'.entries == s.entries && s'.cur == s.cur
  {
  }

  lemma {:induction false} WorkConcat(e: seq<Entry>, a: seq<nat>, b: seq<nat>)
    requires Known(e, a)
    requires Known(e, b)
    ensures Work(e, a + b) == Work(e, a) + Work(e, b)
  {
    if b == [] {
      assert a + b == a;
    } else {
      WorkConcat(e, a, b[..|b| - 1]);
      assert (a + b)[..|a + b| - 1] == a + b[..|b| - 1];
    }
  }

  lemma OthersInOrder(e: seq<Entry>, all: seq<nat>, p: nat)
    requires p < |all| && Known(e, all)
    ensures Order(all, p)[..|all| - 1] == all[p + 1..] + all[..p]
    ensures all == all[..p] + ([all[p]] + all[p + 1..])
    ensures Known(e, all[..p]) && Known(e, all[p + 1..]) && Known(e, [all[p]])
  {
  }

  lemma WorkOfOne(e: seq<Entry>, c: nat)
    requires c < |e|
    ensures Work(e, [c]) == Quantum(e[c])
  {
    assert [c][..0] == [];
  }

  lemma KnownConcat(e: seq<Entry>, a: seq<nat>, b: seq<nat>)
    requires Known(e, a) && Known(e, b)
    ensures Known(e, a + b)
  {
  }

  /** The order of turns is a rotation, so the quanta in it add up to the same. */
  lemma WorkOfOrder(e: seq<Entry>, all: seq<nat>, p: nat)
    requires p < |all| && Known(e, all)
    ensures var others := Order(all, p)[..|all| - 1];
            && Known(e, others)
            && Work(e, all) == Work(e, others) + Quantum(e[all[p]])
  {
    assert all[p] < |e|;
    hide *;
    var before, after, last := all[..p], all[p + 1..], [all[p]];
    OthersInOrder(e, all, p);
    KnownConcat(e, last, after);
    KnownConcat(e, after, before);
    WorkConcat(e, before, last + after);
    WorkConcat(e, last, after);
    WorkConcat(e, after, before);
    WorkOfOne(e, all[p]);
  }

  lemma {:induction false} CopiesOf(c: nat, n: nat, t: nat)
    ensures multiset(Repeat(c, n))[t] == if t == c then n else 0
  {
    if n > 0 {
      CopiesOf(c, n - 1, t);
    }
  }

  lemma {:induction false} BlocksOf(e: seq<Entry>, list: seq<nat>, t: nat)
    requires Known(e, list) && t < |e| && multiset(list)[t] <= 1
    ensures multiset(Blocks(e, list))[t] == if multiset(list)[t] == 1 then Quantum(e[t]) else 0
  {
    if list != [] {
      var rest, c := list[..|list| - 1], list[|list| - 1];
      assert list == rest + [c];
      BlocksOf(e, rest, t);
      CopiesOf(c, Quantum(e[c]), t);
    }
  }

  lemma ReadyNobody(e: seq<Entry>)
    ensures Ready(e, []) == []
  {
  }

  lemma TurnsStep(e: seq<Entry>, low: nat, high: nat)
    requires low < high <= |e|
    ensures Turns(e, low, high) == Turns(e, low, high - 1) + if e[high - 1].eligible then [high - 1] else []
  {
    hide Ready;
    assert Range(low, high) == Range(low, high - 1) + [high - 1];
    ReadyConcat(e, Range(low, high - 1), [high - 1]);
    ReadySingle(e, high - 1);
  }

  /** Whoever may be elected takes turns, once in a round. */
  lemma {:induction false} TakesTurnsOnce(e: seq<Entry>, low: nat, high: nat, t: nat)
    requires high <= |e| && t < |e|
    ensures multiset(Turns(e, low, high))[t] == if low <= t < high && e[t].eligible then 1 else 0
  {
    hide Ready;
    hide Range;
    if low < high {
      TakesTurnsOnce(e, low, high - 1, t);
      TurnsStep(e, low, high);
    } else {
      ReadyNobody(e);
      assert Range(low, high) == [];
    }
  }

  lemma OthersAndOne(all: seq<nat>, p: nat, t: nat)
    requires p < |all|
    ensures multiset(all)[t] == multiset(Order(all, p)[..|all| - 1])[t] + if t == all[p] then 1 else 0
  {
    assert Order(all, p)[..|all| - 1] == all[p + 1..] + all[..p];
    assert all == all[..p] + [all[p]] + all[p + 1..];
  }

  lemma CountOfThree(a: seq<nat>, b: seq<nat>, c: seq<nat>, t: nat)
    ensures multiset(a + b + c)[t] == multiset(a)[t] + multiset(b)[t] + multiset(c)[t]
  {
  }

  /** The elections of such a window, counted for thread `t`. */
  lemma CountOfWindow(e: seq<Entry>, all: seq<nat>, p: nat, left: nat, t: nat)
    requires p < |all| && t < |e| && multiset(all)[t] <= 1
    requires Known(e, Order(all, p)[..|all| - 1]) && all[p] < |e| && 1 <= left <= Quantum(e[all[p]])
    ensures var c, others := all[p], Order(all, p)[..|all| - 1];
            multiset(Repeat(c, left - 1) + Blocks(e, others) + Repeat(c, Quantum(e[c]) - left + 1))[t]
            == if multiset(all)[t] == 1 then Quantum(e[t]) else 0
  {
    hide *;
    var c, others := all[p], Order(all, p)[..|all| - 1];
    OthersAndOne(all, p, t);
    BlocksOf(e, others, t);
    CopiesOf(c, left - 1, t);
    CopiesOf(c, Quantum(e[c]) - left + 1, t);
    CountOfThree(Repeat(c, left - 1), Blocks(e, others), Repeat(c, Quantum(e[c]) - left + 1), t);
  }

  /** In such a window every thread that takes turns is elected as often as its quantum says, and
      nobody else is elected. */
  lemma EverybodyGetsQuantum(s: Sched, b: Bounds, e: seq<Entry>, p: nat, left: nat, t: nat)
    requires InTurn(s, b, e, p, left) && t < |e|
    ensures multiset(Elected(s, b, Work(e, Turns(e, b.low, b.high))))[t]
            == if b.low <= t < b.high && e[t].eligible then Quantum(e[t]) else 0
  {
    hide *;
    InTurnIsKnown(s, b, e, p, left);
    Fairness(s, b, e, p, left);
    TakesTurnsOnce(e, b.low, b.high, t);
    CountOfWindow(e, Turns(e, b.low, b.high), p, left, t);
  }

  /** A run may start when nobody has used anything of a slice. */
  lemma FreshTurn(s: Sched, b: Bounds, p: nat)
    requires Fits(s, b) && Rested(s.entries, b.low, b.high)
    requires p < |Turns(s.entries, b.low, b.high)| && s.cur == Turns(s.entries, b.low, b.high)[p]
    ensures InTurn(s, b, s.entries, p, Quantum(s.entries[s.cur]))
  {
    TurnsAre(s.entries, b.low, b.high);
    assert During(s.entries, s.cur, Quantum(s.entries[s.cur])) == s.entries;
  }

  lemma GoesIdle(s: Sched, b: Bounds)
    requires Fits(s, b) && b.low <= s.cur < b.high
    requires forall i | b.low <= i < b.high :: !s.entries[i].eligible
    requires !Continues(s.entries[s.cur])
    ensures Step(s, b).cur == b.idle && Step(s, b).prev == s.cur
  {
    hide Ready;
    hide Tested;
    ElectIs(s.entries, b.low, b.high, s.prev, s.cur, b.idle);
    ReadyFrom(s.entries, Tested(b.low, b.high, s.cur), b.low, b.high);
    ReadyAmong(s.entries, Tested(b.low, b.high, s.cur));
  }

  /** The idle thread runs, `last` ran before it, and nobody but `last` can run. */
  ghost predicate OnlyLast(s: Sched, b: Bounds, last: nat)
    ensures OnlyLast(s, b, last) ==> Fits(s, b) && s.cur == b.idle
  {
    && Fits(s, b) && s.cur == b.idle && s.prev == last && b.low <= last < b.high && b.high - b.low > 1
    && !s.entries[b.idle].hasCapacity
    && forall i | b.low <= i < b.high && i != last :: !s.entries[i].eligible
  }

  lemma StaysIdle(s: Sched, b: Bounds, last: nat)
    requires OnlyLast(s, b, last)
    ensures OnlyLast(Step(s, b), b, last)
  {
    hide Ready;
    hide Tested;
    ElectIs(s.entries, b.low, b.high, s.prev, s.cur, b.idle);
    IdleOverlooksPrevious(s.entries, b.low, b.high, last, b.idle);
  }

  lemma {:induction false} IdleForEver(s: Sched, b: Bounds, last: nat, n: nat)
    requires OnlyLast(s, b, last)
    ensures OnlyLast(After(s, b, n), b, last)
  {
    hide OnlyLast;
    hide Step;
    if n > 0 {
      IdleForEver(s, b, last, n - 1);
      StaysIdle(After(s, b, n - 1), b, last);
    }
  }

  /** A thread that was the last to run, and gave up the processor while nobody else could run, is not
      elected any more, as long as it is the only one that can: with the entries `e` from then on the
      idle thread is elected for ever. */
  lemma LastRunnerStarves(s: Sched, b: Bounds, e: seq<Entry>, n: nat)
    requires Fits(s, b) && b.low <= s.cur < b.high && b.high - b.low > 1 && |e| == |s.entries|
    requires forall i | b.low <= i < b.high :: !s.entries[i].eligible
    requires !Continues(s.entries[s.cur]) && !e[b.idle].hasCapacity
    requires forall i | b.low <= i < b.high && i != s.cur :: !e[i].eligible
    ensures var s' := Step(s, b);
            && s'.cur == b.idle && Fits(Sched(e, s'.prev, s'.cur), b)
            && After(Sched(e, s'.prev, s'.cur), b, n).cur == b.idle
  {
    hide Step;
    hide After;
    GoesIdle(s, b);
    IdleForEver(Sched(e, s.cur, b.idle), b, s.cur, n);
  }
}
