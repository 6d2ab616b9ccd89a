/** When threads become runnable again: kernel/core/sched.c, lines 317-352, and over runs of elections. */
module Releases {
  import Partitions
  import opened BudgetAndLocks
  import opened ProcessorBudget
  import opened Threads

  /** The election looks after thread `i`: it is for its partition and its processor. */
  predicate Concerns(c: Call, t: Thread, i: nat) {
    c.low <= i < c.high && t.affinity == c.proc
  }

  /** What an election does before anybody is charged: a thread whose waiting time is over goes on, one
      whose period begins gets its whole capacity, a deadline counted from the release point, and the
      next release point; everybody else stays as it is. */
  lemma Supply(threads: seq<Thread>, c: Call, i: nat)
    requires Arguments(c, |threads|) && i < |threads|
    ensures var t, t' := threads[i], AllActivated(threads, c)[i];
            && (Concerns(c, t, i) ==> !Overdue(t', c.now))
            && (!(Concerns(c, t, i) && Overdue(t, c.now)) ==> t' == t)
            && (Concerns(c, t, i) && Overdue(t, c.now) ==> t'.state == Runnable)
            && (Concerns(c, t, i) && Overdue(t, c.now) && t.state == Waiting ==> t' == t.(state := Runnable))
            && (Concerns(c, t, i) && Overdue(t, c.now) && t.state == WaitNextActivation ==>
                  && t'.remainingTimeCapacity == t.timeCapacity
                  && t'.ddl == t.nextActivation + t.deadline
                  && (t.nextActivation + t.period >= 0 ==> t'.nextActivation == t.nextActivation + t.period)
                  && (t.nextActivation == 0 && t.period == -1 ==> t'.nextActivation == 0xFFFF_FFFF_FFFF_FFFF)
                  && t' == t.(state := Runnable, remainingTimeCapacity := t'.remainingTimeCapacity,
                              ddl := t'.ddl, nextActivation := t'.nextActivation))
  {
  }

  /** Who is charged: the thread that has been running, one tick of a finite capacity, if the partition
      is in normal mode, its error thread does not go on, and the thread is neither the idle one nor
      the main or error thread. Nobody else loses budget. */
  lemma ChargedIff(threads: seq<Thread>, c: Call, i: nat)
    requires Arguments(c, |threads|) && i < |threads|
    ensures var activated := AllActivated(threads, c);
            var errorRuns := c.partitionCurrent == c.errorThread && activated[c.partitionCurrent].state == Runnable;
            Prepared(threads, c)[i].remainingTimeCapacity == activated[i].remainingTimeCapacity -
              if && i == c.running && activated[i].timeCapacity > 0
                 && c.mode == Partitions.Normal && !errorRuns
                 && c.running != c.idle && c.running != c.mainThread && c.running != c.errorThread
              then 1 else 0
  {
  }

  /** After an election nobody that it looks after is left waiting for a time that has come, except for
      the thread that it charges the last tick of its budget, past its next release point. */
  lemma LeftOverdueIff(threads: seq<Thread>, c: Call, i: nat)
    requires Arguments(c, |threads|) && i < |threads| && Concerns(c, threads[i], i)
    ensures var t := AllActivated(threads, c)[i];
            Overdue(Prepared(threads, c)[i], c.now)
            <==> && c.running == i && Charges(threads, c) && t.timeCapacity > 0
                 && t.remainingTimeCapacity <= 1 && t.nextActivation <= c.now
  {
  }

  /** The first election of the run that finds the thread overdue is election `k`. */
  ghost predicate FirstDue(run: seq<Election>, i: nat, k: nat)
    requires Run(run, i)
    ensures FirstDue(run, i, k) ==> k < |run|
  {
    && k < |run| && Concerns(run[k].call, run[0].before[i], i) && Overdue(run[0].before[i], run[k].call.now)
    && forall j | 0 <= j < k ::
         !(Concerns(run[j].call, run[0].before[i], i) && Overdue(run[0].before[i], run[j].call.now))
  }

  /** What stays of a waiting thread. */
  ghost predicate Untouched(t: Thread, t': Thread) {
    && t'.state == t.state && t'.wakeupTime == t.wakeupTime && t'.affinity == t.affinity
    && t'.nextActivation == t.nextActivation && t'.timeCapacity == t.timeCapacity && t'.period == t.period
  }

  lemma SameDue(t: Thread, t': Thread, c: Call, i: nat)
    requires Untouched(t, t')
    ensures Concerns(c, t', i) == Concerns(c, t, i) && Overdue(t', c.now) == Overdue(t, c.now)
  {
  }

  /** Until then a thread that waits for a time, or for its next activation, goes on waiting and is not
      elected, and after the first election its budget stays as it is. */
  lemma {:induction false} WaitsUntilDue(run: seq<Election>, i: nat, k: nat)
    requires Run(run, i) && k < |run| && Undisturbed(run, i)
    requires run[0].before[i].state == Waiting || run[0].before[i].state == WaitNextActivation
    requires run[0].before[i].state == Waiting ==> !Exhausts(run[0].before, run[0].call, i)
    requires forall j | 0 <= j <= k ::
               !(Concerns(run[j].call, run[0].before[i], i) && Overdue(run[0].before[i], run[j].call.now))
    ensures Untouched(run[0].before[i], run[k].after[i]) && run[k].elected != i
    ensures run[k].after[i].remainingTimeCapacity == run[0].after[i].remainingTimeCapacity
  {
    hide Exhausts;
    hide Overdue;
    hide Concerns;
    if k > 0 {
      WaitsUntilDue(run, i, k - 1);
      assert SameWait(run[k - 1].after[i], run[k].before[i]);
      assert run[k].call.running != i;
    }
    SameDue(run[0].before[i], run[k].before[i], run[k].call, i);
    OneMoreWait(run[k], i);
  }

  lemma OneMoreWait(e: Election, i: nat)
    requires IsElection(e, i) && !Forces(e, i)
    requires !(Concerns(e.call, e.before[i], i) && Overdue(e.before[i], e.call.now))
    requires e.before[i].state == Waiting || e.before[i].state == WaitNextActivation
    requires e.before[i].state == Waiting && e.call.running == i ==> !Exhausts(e.before, e.call, i)
    requires e.after[i].wakeupTime == e.before[i].wakeupTime && e.after[i].affinity == e.before[i].affinity
    ensures Untouched(e.before[i], e.after[i]) && e.elected != i
    ensures e.call.running != i ==> e.after[i].remainingTimeCapacity == e.before[i].remainingTimeCapacity
  {
  }

  lemma BecomesRunnable(e: Election, i: nat)
    requires IsElection(e, i) && Concerns(e.call, e.before[i], i) && Overdue(e.before[i], e.call.now)
    requires e.call.running != i
    ensures var t, t' := e.before[i], e.after[i];
            && t'.state == Runnable
            && (t.state == Waiting ==>
                  t'.remainingTimeCapacity == t.remainingTimeCapacity && t'.nextActivation == t.nextActivation)
            && (t.state == WaitNextActivation ==>
                  && t'.remainingTimeCapacity == t.timeCapacity
                  && (t.period >= 0 ==> t'.nextActivation == t.nextActivation + t.period))
  {
  }

  /** What election `k` finds of a thread that has waited until then. */
  lemma FoundWaiting(run: seq<Election>, i: nat, k: nat)
    requires Run(run, i) && Undisturbed(run, i) && FirstDue(run, i, k)
    requires run[0].before[i].state == Waiting || run[0].before[i].state == WaitNextActivation
    requires run[0].before[i].state == Waiting ==> !Exhausts(run[0].before, run[0].call, i)
    requires k > 0 || run[0].call.running != i
    ensures Untouched(run[0].before[i], run[k].before[i]) && run[k].call.running != i
    ensures k > 0 ==> run[k].before[i].remainingTimeCapacity == run[0].after[i].remainingTimeCapacity
    ensures forall j | 0 <= j < k :: run[j].after[i].state == run[0].before[i].state && run[j].elected != i
  {
    hide Exhausts;
    hide Overdue;
    hide Concerns;
    forall j | 0 <= j < k ensures run[j].after[i].state == run[0].before[i].state && run[j].elected != i {
      WaitsUntilDue(run, i, j);
    }
    if k > 0 {
      WaitsUntilDue(run, i, k - 1);
      assert SameWait(run[k - 1].after[i], run[k].before[i]);
    }
  }

  /** A thread with a timeout is woken in time. It waits, unless the election that it calls itself uses
      up its budget, until the first election of its partition and processor at or after its wake-up
      time, is not elected before, and is runnable then with the budget that it had left. */
  lemma WokenInTime(run: seq<Election>, i: nat, k: nat)
    requires Run(run, i) && Undisturbed(run, i) && FirstDue(run, i, k) && run[0].before[i].state == Waiting
    requires k > 0 && !Exhausts(run[0].before, run[0].call, i)
    ensures forall j | 0 <= j < k :: run[j].after[i].state == Waiting && run[j].elected != i
    ensures run[k].after[i].state == Runnable
    ensures run[k].after[i].remainingTimeCapacity == run[0].after[i].remainingTimeCapacity
  {
    hide *;
    FoundWaiting(run, i, k);
    DueThen(run, i, k);
    BecomesRunnable(run[k], i);
  }

  /** A thread that waits for its next activation is released in time, with its whole capacity and the
      next release point one period later. */
  lemma ReleasedInTime(run: seq<Election>, i: nat, k: nat)
    requires Run(run, i) && Undisturbed(run, i) && FirstDue(run, i, k)
    requires run[0].before[i].state == WaitNextActivation && (k > 0 || run[0].call.running != i)
    ensures forall j | 0 <= j < k :: run[j].after[i].state == WaitNextActivation && run[j].elected != i
    ensures var t, t' := run[0].before[i], run[k].after[i];
            && t'.state == Runnable && t'.remainingTimeCapacity == t.timeCapacity
            && (t.period >= 0 ==> t'.nextActivation == t.nextActivation + t.period)
  {
    hide *;
    FoundWaiting(run, i, k);
    DueThen(run, i, k);
    BecomesRunnable(run[k], i);
  }

  lemma DueThen(run: seq<Election>, i: nat, k: nat)
    requires Run(run, i) && FirstDue(run, i, k) && Untouched(run[0].before[i], run[k].before[i])
    ensures IsElection(run[k], i)
    ensures Concerns(run[k].call, run[k].before[i], i) && Overdue(run[k].before[i], run[k].call.now)
    ensures run[k].before[i].state == run[0].before[i].state
    ensures var t, t' := run[0].before[i], run[k].before[i];
            t'.timeCapacity == t.timeCapacity && t'.period == t.period && t'.nextActivation == t.nextActivation
  {
    hide IsElection;
    SameDue(run[0].before[i], run[k].before[i], run[k].call, i);
  }
}
