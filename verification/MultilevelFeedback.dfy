/** The kernel's multi-level feedback queue and its levels over runs: `pok_sched_part_mlfq`,
    kernel/core/sched.c, lines 1127-1187, and kernel/core/thread.c, lines 195-198. */
module MultilevelFeedback {
  import opened PowersOfTwo
  import opened Threads

  const MAX_LEVEL: nat := 7

  function Level(t: Thread): nat {
    t.mlfqLevel
  }

  /** `1 << 7 >> level` on 32-bit integers. A shift by 32 or more has no defined result: `undefined`
      is whatever the machine makes of it. */
  function Slice(level: nat, undefined: nat): nat {
    if level <= 7 then Pow2(7 - level) else if level < 32 then 0 else undefined
  }

  /** `mlfq_level--` on an unsigned byte, which is never negative afterwards. */
  function Demoted(t: Thread, undefined: nat): Thread {
    var level := if t.mlfqLevel == 0 then 255 else t.mlfqLevel - 1;
    t.(mlfqLevel := level, remainingTimeslice := Slice(level, undefined))
  }

  /** One quantum is charged; a thread that has used up its slice goes down a level. */
  function Charged(t: Thread, undefined: nat): Thread {
    if t.remainingTimeslice <= 1 then Demoted(t, undefined)
    else t.(remainingTimeslice := t.remainingTimeslice - 1)
  }

  /** Levels fall or stay, except that a thread at level 0 rises to level 255, above all others,
      when its slice is used up. */
  lemma NeverRisesIff(t: Thread, undefined: nat)
    requires t.mlfqLevel < 256
    ensures Charged(t, undefined).mlfqLevel < 256
    ensures Charged(t, undefined).mlfqLevel <= t.mlfqLevel <==> t.mlfqLevel > 0 || t.remainingTimeslice > 1
  {
  }

  ghost predicate Continues(t: Thread) {
    t.state == Runnable && t.remainingTimeCapacity > 0 && t.remainingTimeslice > 1
  }

  /** The table after the election has charged the current thread. */
  function AfterCharge(threads: seq<Thread>, cur: nat, idle: nat, undefined: nat): (threads': seq<Thread>)
    requires cur < |threads|
    ensures |threads'| == |threads|
  {
    var t := threads[cur];
    if cur != idle then threads[cur := Charged(t, undefined)]
    else if t.remainingTimeslice > 0 then threads[cur := t.(remainingTimeslice := t.remainingTimeslice - 1)]
    else threads
  }

  ghost predicate Arguments(size: nat, low: nat, high: nat, prev: nat, cur: nat, idle: nat) {
    && low < high <= idle < size
    && (cur == idle || low <= cur < high) && (prev == idle || low <= prev < high)
  }

  /** Who is elected: the current thread while it has some of its slice left, otherwise the first of the
      highest level, on the table after the charge. */
  ghost predicate ElectedMlfq(threads: seq<Thread>, low: nat, high: nat, prev: nat, cur: nat, idle: nat, proc: nat,
      undefined: nat, elected: nat)
    requires Arguments(|threads|, low, high, prev, cur, idle)
  {
    var from := if prev == idle then low else if cur != idle then cur else prev;
    var threads' := AfterCharge(threads, cur, idle, undefined);
    if Continues(threads[cur]) then elected == cur
    else if NoneEligible(threads', low, high, proc) then elected == idle
    else IsFirstBest(threads', Level, low, high, from, proc, elected)
  }

  /** `pok_sched_part_mlfq`. A thread that is not demoted, and can go on, goes on. */
  method ElectMlfq(threads: array<Thread>, low: nat, high: nat, prev: nat, cur: nat, idle: nat, proc: nat,
                   undefined: nat)
    returns (elected: nat)
    requires Arguments(threads.Length, low, high, prev, cur, idle)
    modifies threads
    ensures threads[..] == AfterCharge(old(threads[..]), cur, idle, undefined)
    ensures ElectedMlfq(old(threads[..]), low, high, prev, cur, idle, proc, undefined, elected)
    ensures var t, from := old(threads[cur]), if prev == idle then low else if cur != idle then cur else prev;
            if t.state == Runnable && t.remainingTimeCapacity > 0 && t.remainingTimeslice > 1 then elected == cur
            else if NoneEligible(threads[..], low, high, proc) then elected == idle
            else IsFirstBest(threads[..], Level, low, high, from, proc, elected)
    ensures var t := old(threads[cur]);
            && (cur == idle && t.remainingTimeslice == 0 ==> threads[..] == old(threads[..]))
            && (cur == idle && t.remainingTimeslice > 0 ==>
                  threads[..] == WithSlice(old(threads[..]), idle, t.remainingTimeslice - 1))
            && (cur != idle && t.state == Runnable && t.remainingTimeCapacity > 0 ==>
                  threads[cur].mlfqLevel == t.mlfqLevel ==> elected == cur)
  {
    hide Pow2;
    hide NoneEligible;
    hide IsFirstBest;
    var from := if cur != idle then cur else prev;
    if threads[cur].remainingTimeslice > 0 {
      threads[cur] := threads[cur].(remainingTimeslice := threads[cur].remainingTimeslice - 1);
    }
    if threads[cur].state == Runnable && threads[cur].remainingTimeCapacity > 0 &&
       threads[cur].remainingTimeslice > 0 {
      return cur;
    } else if cur != idle && threads[cur].remainingTimeslice == 0 {
      var level := threads[cur].mlfqLevel;
      threads[cur] := threads[cur].(mlfqLevel := if level == 0 then 255 else level - 1);
      if threads[cur].mlfqLevel < 0 {
        threads[cur] := threads[cur].(mlfqLevel := 0);
      }
      threads[cur] := threads[cur].(remainingTimeslice := Slice(threads[cur].mlfqLevel, undefined));
    }
    if prev == idle {
      from := low;
    }
    var maxPrio, maxThread := Highest(threads, Level, low, high, from, proc);
    elected := if maxPrio >= 0 then maxThread else idle;
  }

  /** A thread after `n` quanta. */
  function AfterQuanta(t: Thread, n: nat, undefined: nat): Thread {
    if n == 0 then t else Charged(AfterQuanta(t, n - 1, undefined), undefined)
  }

  /** `thread.c` starts every thread at the top level with a slice of 1. */
  predicate IsNew(t: Thread) {
    t.mlfqLevel == MAX_LEVEL && t.remainingTimeslice == 1
  }

  /** The number of quanta charged can be read off the level and what is left of the slice. */
  lemma {:induction false} QuantaAtLevel(t: Thread, n: nat, undefined: nat)
    requires IsNew(t) && n < 255
    ensures var c := AfterQuanta(t, n, undefined);
            && c.mlfqLevel <= MAX_LEVEL
            && 1 <= c.remainingTimeslice <= Pow2(7 - c.mlfqLevel)
            && n == Pow2(8 - c.mlfqLevel) - 1 - c.remainingTimeslice
  {
    if n > 0 {
      QuantaAtLevel(t, n - 1, undefined);
      var b := AfterQuanta(t, n - 1, undefined);
      assert b.mlfqLevel == 0 ==> Pow2(8) == 256;
    }
  }

  /** Level 0 is reached with the 127th quantum, not before; and with the 255th the level is 255. */
  lemma {:induction false} LevelsOverTime(t: Thread, n: nat, undefined: nat)
    requires IsNew(t) && n <= 255
    ensures var c := AfterQuanta(t, n, undefined);
            && (c.mlfqLevel == 0 <==> 127 <= n < 255)
            && (c.mlfqLevel > MAX_LEVEL <==> n == 255)
            && (n == 255 ==> c.mlfqLevel == 255 && c.remainingTimeslice == undefined)
  {
    hide Pow2;
    Pow2Small();
    if n < 255 {
      QuantaAtLevel(t, n, undefined);
      var l := AfterQuanta(t, n, undefined).mlfqLevel;
      if l > 0 {
        Pow2Monotone(8 - l, 7);
      }
    } else {
      QuantaAtLevel(t, 254, undefined);
      LevelsOverTime(t, 254, undefined);
    }
  }

  lemma Pow2Small()
    ensures Pow2(0) == 1 && Pow2(7) == 128 && Pow2(8) == 256
  {
  }

  /** What the queue keeps of a thread from one election to the next. */
  function Account(t: Thread): (nat, nat) {
    (t.mlfqLevel, t.remainingTimeslice)
  }

  /** A run: `tables[k]` is the table before election `k`, `currents[k]` the thread it charges.
      Between elections everything may change but the levels and the slices. */
  ghost predicate Run(tables: seq<seq<Thread>>, currents: seq<nat>, i: nat, idle: nat, undefined: nat) {
    && |tables| == |currents| + 1 && i != idle
    && (forall k | 0 <= k < |tables| :: i < |tables[k]|)
    && forall k | 0 <= k < |currents| ::
         && currents[k] < |tables[k]|
         && Account(tables[k + 1][i]) == Account(AfterCharge(tables[k], currents[k], idle, undefined)[i])
  }

  function Quanta(currents: seq<nat>, i: nat): nat {
    multiset(currents)[i]
  }

  /** Over a run only the quanta charged to a thread decide its level and slice. */
  lemma {:induction false} OnlyQuantaCount(
      tables: seq<seq<Thread>>, currents: seq<nat>, i: nat, idle: nat, undefined: nat, k: nat)
    requires Run(tables, currents, i, idle, undefined) && k <= |currents|
    ensures Account(tables[k][i]) == Account(AfterQuanta(tables[0][i], Quanta(currents[..k], i), undefined))
  {
    hide Pow2;
    if k > 0 {
      OnlyQuantaCount(tables, currents, i, idle, undefined, k - 1);
      assert currents[..k] == currents[..k - 1] + [currents[k - 1]];
      assert Account(tables[k][i]) ==
             Account(AfterCharge(tables[k - 1], currents[k - 1], idle, undefined)[i]);
      SameAccountSameCharge(
        tables[k - 1][i], AfterQuanta(tables[0][i], Quanta(currents[..k - 1], i), undefined), undefined);
    }
  }

  lemma SameAccountSameCharge(t: Thread, t': Thread, undefined: nat)
    requires Account(t) == Account(t')
    ensures Account(Charged(t, undefined)) == Account(Charged(t', undefined))
  {
  }

  /** Level accounting over runs, for a thread that is new at the start. */
  lemma LevelAccounting(
      tables: seq<seq<Thread>>, currents: seq<nat>, i: nat, idle: nat, undefined: nat, k: nat)
    requires Run(tables, currents, i, idle, undefined) && k <= |currents|
    requires IsNew(tables[0][i]) && Quanta(currents[..k], i) < 255
    ensures var t, n := tables[k][i], Quanta(currents[..k], i);
            && t.mlfqLevel <= MAX_LEVEL
            && n == Pow2(8 - t.mlfqLevel) - 1 - t.remainingTimeslice
            && (t.mlfqLevel == 0 <==> n >= 127)
  {
    hide Pow2;
    hide AfterQuanta;
    OnlyQuantaCount(tables, currents, i, idle, undefined, k);
    QuantaAtLevel(tables[0][i], Quanta(currents[..k], i), undefined);
    LevelsOverTime(tables[0][i], Quanta(currents[..k], i), undefined);
  }

  /** `1 << 7 >> level` is the quotient by the power of two, wherever the shift is defined. */
  lemma SliceIsQuotient(level: nat, undefined: nat)
    requires level < 32
    ensures Slice(level, undefined) * Pow2(level) <= 128 < (Slice(level, undefined) + 1) * Pow2(level)
  {
    hide Pow2;
    Pow2Small();
    if level <= 7 {
      Pow2Add(7 - level, level);
      Pow2Positive(level);
    } else {
      Pow2Monotone(8, level);
    }
  }

  lemma Pow2Positive(n: nat)
    ensures Pow2(n) >= 1
  {
  }

  datatype Bounds = Bounds(low: nat, high: nat, idle: nat, proc: nat, undefined: nat)

  datatype Election = Election(before: seq<Thread>, prev: nat, cur: nat, elected: nat, after: seq<Thread>)

  ghost predicate IsElection(e: Election, b: Bounds) {
    && Arguments(|e.before|, b.low, b.high, e.prev, e.cur, b.idle)
    && ElectedMlfq(e.before, b.low, b.high, e.prev, e.cur, b.idle, b.proc, b.undefined, e.elected)
    && e.after == AfterCharge(e.before, e.cur, b.idle, b.undefined)
  }

  ghost predicate Follows(e: Election, next: Election, i: nat) {
    && next.cur == e.elected && i < |e.after| && i < |next.before|
    && Account(next.before[i]) == Account(e.after[i])
  }

  /** A run in which thread `i` stays runnable and has capacity left. Between two elections the other
      threads may do anything. */
  ghost predicate Runs(run: seq<Election>, b: Bounds, i: nat) {
    && i != b.idle
    && (forall k | 0 <= k < |run| ::
          && IsElection(run[k], b) && i < |run[k].before|
          && run[k].before[i].state == Runnable && run[k].before[i].remainingTimeCapacity > 0)
    && forall k | 0 < k < |run| :: Follows(run[k - 1], run[k], i)
  }

  /** A turn ends by demotion only: a thread that has been elected with a whole slice keeps the processor
      for as many elections as the slice has quanta, `2^(7 - level)`, whoever can run meanwhile; the
      last of them takes it down a level. */
  lemma {:induction false} WholeSlice(run: seq<Election>, b: Bounds, i: nat, k: nat)
    requires Runs(run, b, i) && run != [] && run[0].cur == i
    requires var t := run[0].before[i];
             t.mlfqLevel <= MAX_LEVEL && t.remainingTimeslice == Pow2(7 - t.mlfqLevel)
    requires k < |run| && k < Pow2(7 - run[0].before[i].mlfqLevel)
    ensures i < |run[k].after|
    ensures var level, slice := run[0].before[i].mlfqLevel, Pow2(7 - run[0].before[i].mlfqLevel);
            && run[k].cur == i && Account(run[k].before[i]) == (level, slice - k)
            && (k + 1 < slice ==> run[k].elected == i && run[k].after[i].mlfqLevel == level)
            && (k + 1 == slice ==> run[k].after[i].mlfqLevel == if level == 0 then 255 else level - 1)
  {
    hide Pow2;
    hide NoneEligible;
    hide IsFirstBest;
    if k > 0 {
      WholeSlice(run, b, i, k - 1);
      assert Follows(run[k - 1], run[k], i);
    }
    assert IsElection(run[k], b);
  }
}
