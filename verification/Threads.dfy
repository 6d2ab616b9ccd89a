/** The thread table, kernel/include/core/thread.h, and the cyclic scans over the part of it that
    belongs to one partition, kernel/core/sched.c. */
module Threads {
  datatype ThreadState = Stopped | Runnable | Waiting | Lock | WaitNextActivation | DelayedStart

  /** The fields of `pok_thread_t` that scheduling uses. */
  datatype Thread = Thread(
    priority: nat, period: int, deadline: nat, timeCapacity: int, remainingTimeCapacity: int,
    nextActivation: nat, wakeupTime: nat, state: ThreadState, affinity: nat, ddl: nat, weight: nat,
    remainingTimeslice: nat, mlfqLevel: nat)

  predicate Eligible(t: Thread, proc: nat) {
    t.state == Runnable && t.affinity == proc
  }

  /** A partition owns the threads `low..high`; the idle threads come behind all partitions. */
  ghost predicate Local(i: nat, low: nat, high: nat) {
    low <= i < high
  }

  function Range(a: nat, b: nat): (r: seq<nat>)
    ensures |r| == if a <= b then b - a else 0
    ensures forall k | 0 <= k < |r| :: r[k] == a + k
  {
    if a <= b then seq(b - a, k requires 0 <= k => a + k) else []
  }

  /** `i++` and back to `low` at the end. */
  function Following(i: nat, low: nat, high: nat): nat {
    if i + 1 >= high then low else i + 1
  }

  /** The indices of a partition in the order of a scan that starts at `from`. */
  function Cycle(low: nat, high: nat, from: nat): (c: seq<nat>)
    requires low <= from < high
    ensures |c| == high - low
    ensures forall k | 0 <= k < |c| :: c[k] == if from + k < high then from + k else from + k - (high - low)
  {
    Range(from, high) + Range(low, from)
  }

  lemma CycleStep(low: nat, high: nat, from: nat, k: nat)
    requires low <= from < high && k < high - low
    ensures var c := Cycle(low, high, from);
            && low <= c[k] < high && (c[k] == from <==> k == 0)
            && Following(c[k], low, high) == if k + 1 < |c| then c[k + 1] else from
  {
  }

  lemma CycleHas(low: nat, high: nat, from: nat, i: nat)
    requires low <= from < high && low <= i < high
    ensures i in Cycle(low, high, from)
  {
    var c := Cycle(low, high, from);
    assert c[if i >= from then i - from else i + (high - low) - from] == i;
  }

  /** How many steps a scan from `from` takes to reach `i`. */
  function Distance(low: nat, high: nat, from: nat, i: nat): (d: nat)
    requires low <= from < high && low <= i < high
    ensures d < high - low && (d == 0 <==> i == from)
  {
    if i >= from then i - from else i + (high - low) - from
  }

  ghost predicate NoneEligible(threads: seq<Thread>, low: nat, high: nat, proc: nat)
    requires high <= |threads|
  {
    forall i | low <= i < high :: !Eligible(threads[i], proc)
  }

  /** Nobody that can be elected has a higher key than `i`. */
  ghost predicate IsBest(threads: seq<Thread>, key: Thread -> nat, low: nat, high: nat, proc: nat, i: nat)
    requires high <= |threads|
  {
    && low <= i < high && Eligible(threads[i], proc)
    && forall j | low <= j < high && Eligible(threads[j], proc) :: key(threads[j]) <= key(threads[i])
  }

  /** `i` is the first of the best in a scan from `from`. */
  ghost predicate IsFirstBest(threads: seq<Thread>, key: Thread -> nat, low: nat, high: nat, from: nat,
      proc: nat, i: nat)
    requires low <= from < high <= |threads|
  {
    && IsBest(threads, key, low, high, proc, i)
    && forall j | low <= j < high && Eligible(threads[j], proc) && key(threads[j]) == key(threads[i]) ::
         Distance(low, high, from, i) <= Distance(low, high, from, j)
  }

  /** The best among the first `k` threads of a scan from `from`, or nobody yet. */
  ghost predicate BestSoFar(threads: seq<Thread>, key: Thread -> nat, low: nat, high: nat, from: nat, proc: nat,
      k: nat, maxPrio: int, maxThread: nat)
    requires low <= from < high <= |threads|
  {
    && low <= maxThread < high
    && (if maxPrio < 0 then maxPrio == -1
        else && maxPrio == key(threads[maxThread]) && Eligible(threads[maxThread], proc)
             && Distance(low, high, from, maxThread) < k)
    && forall j | low <= j < high && Distance(low, high, from, j) < k && Eligible(threads[j], proc) ::
         && key(threads[j]) <= maxPrio
         && (key(threads[j]) == maxPrio ==> Distance(low, high, from, maxThread) <= Distance(low, high, from, j))
  }

  lemma BestStep(threads: seq<Thread>, key: Thread -> nat, low: nat, high: nat, from: nat, proc: nat,
      maxPrio: int, maxThread: nat, i: nat)
    requires low <= from < high <= |threads| && low <= i < high
    requires BestSoFar(threads, key, low, high, from, proc, Distance(low, high, from, i), maxPrio, maxThread)
    ensures var better := Eligible(threads[i], proc) && key(threads[i]) > maxPrio;
            BestSoFar(threads, key, low, high, from, proc, Distance(low, high, from, i) + 1,
                      if better then key(threads[i]) else maxPrio, if better then i else maxThread)
  {
    forall j | low <= j < high && Distance(low, high, from, j) == Distance(low, high, from, i) ensures j == i {
    }
    hide Distance;
  }

  lemma BestOfAll(threads: seq<Thread>, key: Thread -> nat, low: nat, high: nat, from: nat, proc: nat,
      maxPrio: int, maxThread: nat)
    requires low <= from < high <= |threads|
    requires BestSoFar(threads, key, low, high, from, proc, high - low, maxPrio, maxThread)
    ensures maxPrio == -1 <==> NoneEligible(threads, low, high, proc)
    ensures maxPrio != -1 ==> IsFirstBest(threads, key, low, high, from, proc, maxThread)
    ensures maxPrio != -1 ==> maxPrio == key(threads[maxThread])
  {
    hide Distance;
  }

  lemma DistanceNext(low: nat, high: nat, from: nat, i: nat)
    requires low <= from < high && low <= i < high
    ensures var next := if i + 1 >= high then low else i + 1;
            if next == from then Distance(low, high, from, i) + 1 == high - low
            else Distance(low, high, from, next) == Distance(low, high, from, i) + 1
  {
  }

  /** The scan for the highest key, as of lines 994-1005 and 1165-1177. */
  method Highest(threads: array<Thread>, key: Thread -> nat, low: nat, high: nat, from: nat, proc: nat)
    returns (maxPrio: int, maxThread: nat)
    requires low <= from < high <= threads.Length
    ensures low <= maxThread < high
    ensures maxPrio == -1 <==> NoneEligible(threads[..], low, high, proc)
    ensures maxPrio != -1 ==> IsFirstBest(threads[..], key, low, high, from, proc, maxThread)
    ensures maxPrio != -1 ==> maxPrio == key(threads[maxThread]) && Eligible(threads[maxThread], proc)
    ensures forall j | low <= j < high && Eligible(threads[j], proc) ::
              key(threads[j]) < maxPrio
              || (key(threads[j]) == maxPrio
                  && Distance(low, high, from, maxThread) <= Distance(low, high, from, j))
  {
    hide Distance;
    hide IsFirstBest;
    hide NoneEligible;
    maxPrio, maxThread := -1, from;
    var i := from;
    ghost var k := 0;
    var again := true;
    while again
      invariant 0 <= k <= high - low && low <= i < high && low <= maxThread < high
      invariant if again then k < high - low && Distance(low, high, from, i) == k else k == high - low
      invariant BestSoFar(threads[..], key, low, high, from, proc, k, maxPrio, maxThread)
      decreases high - low - k
    {
      BestStep(threads[..], key, low, high, from, proc, maxPrio, maxThread, i);
      DistanceNext(low, high, from, i);
      if threads[i].state == Runnable && threads[i].affinity == proc && key(threads[i]) > maxPrio {
        maxPrio := key(threads[i]);
        maxThread := i;
      }
      i := i + 1;
      if i >= high {
        i := low;
      }
      k := k + 1;
      again := i != from;
    }
    BestOfAll(threads[..], key, low, high, from, proc, maxPrio, maxThread);
  }

  function WithSlice(threads: seq<Thread>, i: nat, slice: nat): seq<Thread>
    requires i < |threads|
  {
    threads[i := threads[i].(remainingTimeslice := slice)]
  }

  method SetSlice(threads: array<Thread>, i: nat, slice: nat)
    requires i < threads.Length
    modifies threads
    ensures threads[..] == WithSlice(old(threads[..]), i, slice)
  {
    threads[i] := threads[i].(remainingTimeslice := slice);
  }
}
