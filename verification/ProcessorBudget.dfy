/** Activation and charging of threads, and the bound on processor time that follows:
    `pok_elect_thread`, kernel/core/sched.c, lines 285-465, and kernel/core/thread.c, lines 172-189. */
module ProcessorBudget {
  import Partitions
  import opened Products
  import opened Threads

  /** What an election knows besides the thread table: the time, the processor, the partition that
      has been chosen (its threads, main and error thread, and its own current thread) and the
      thread that has been running on the processor, which may be of another partition. */
  datatype Call = Call(
    now: nat, proc: nat, low: nat, high: nat, mode: Partitions.Mode, mainThread: nat, errorThread: nat,
    partitionCurrent: nat, running: nat, idle: nat)

  ghost predicate Arguments(c: Call, size: nat) {
    c.low <= c.high <= c.idle < size && c.partitionCurrent < size && c.running < size
  }

  /** `next_activation + period`, where an infinite period is -1: an unsigned sum wraps below zero. */
  function NextActivation(t: Thread): nat {
    var sum := t.nextActivation + t.period;
    if sum >= 0 then sum else sum % 0x1_0000_0000_0000_0000
  }

  function Activated(t: Thread, now: nat, proc: nat): Thread {
    if t.affinity != proc then t
    else if t.state == Waiting && t.wakeupTime <= now then t.(state := Runnable)
    else if t.state == WaitNextActivation && t.nextActivation <= now then
      t.(ddl := t.nextActivation + t.deadline, state := Runnable, remainingTimeCapacity := t.timeCapacity,
         nextActivation := NextActivation(t))
    else t
  }

  /** The thread waits for a time that has come. */
  predicate Overdue(t: Thread, now: nat) {
    (t.state == Waiting && t.wakeupTime <= now) || (t.state == WaitNextActivation && t.nextActivation <= now)
  }

  /** The error thread of the partition goes on. */
  predicate ErrorGoesOn(threads: seq<Thread>, c: Call)
    requires Arguments(c, |threads|)
  {
    c.partitionCurrent == c.errorThread && threads[c.partitionCurrent].state == Runnable
  }

  predicate IsCharged(c: Call) {
    c.running != c.idle && c.running != c.mainThread && c.running != c.errorThread
  }

  /** One tick is charged; a thread without budget left waits for its next activation, whatever its
      state was. */
  function Charged(t: Thread): Thread {
    if t.timeCapacity <= 0 then t
    else if t.remainingTimeCapacity <= 1 then
      t.(remainingTimeCapacity := t.remainingTimeCapacity - 1, state := WaitNextActivation)
    else t.(remainingTimeCapacity := t.remainingTimeCapacity - 1)
  }

  function AllActivated(threads: seq<Thread>, c: Call): (r: seq<Thread>)
    requires Arguments(c, |threads|)
    ensures |r| == |threads|
    ensures forall i | 0 <= i < |threads| ::
              r[i] == if c.low <= i < c.high then Activated(threads[i], c.now, c.proc) else threads[i]
  {
    seq(|threads|, i requires 0 <= i < |threads| =>
      if c.low <= i < c.high then Activated(threads[i], c.now, c.proc) else threads[i])
  }

  /** The table on which the policy of the partition elects. */
  function Prepared(threads: seq<Thread>, c: Call): (r: seq<Thread>)
    requires Arguments(c, |threads|)
    ensures |r| == |threads|
  {
    var activated := AllActivated(threads, c);
    if c.mode == Partitions.Normal && !ErrorGoesOn(activated, c) && IsCharged(c) then
      activated[c.running := Charged(activated[c.running])]
    else activated
  }

  /** The part of `pok_elect_thread` before the policy is called. */
  method Prepare(threads: array<Thread>, c: Call)
    requires Arguments(c, threads.Length)
    modifies threads
    ensures threads[..] == Prepared(old(threads[..]), c)
  {
    Activate(threads, c);
    if c.mode == Partitions.Normal {
      if c.partitionCurrent == c.errorThread && threads[c.partitionCurrent].state == Runnable {
        return;
      }
      if c.running != c.idle && c.running != c.mainThread && c.running != c.errorThread {
        if threads[c.running].timeCapacity > 0 {
          threads[c.running] :=
            threads[c.running].(remainingTimeCapacity := threads[c.running].remainingTimeCapacity - 1);
        }
        if threads[c.running].timeCapacity > 0 && threads[c.running].remainingTimeCapacity <= 0 {
          threads[c.running] := threads[c.running].(state := WaitNextActivation);
        }
      }
    }
  }

  /** The loop over the threads of the partition. */
  method Activate(threads: array<Thread>, c: Call)
    requires Arguments(c, threads.Length)
    modifies threads
    ensures threads[..] == AllActivated(old(threads[..]), c)
    ensures forall i | c.low <= i < c.high && threads[i].affinity == c.proc :: !Overdue(threads[i], c.now)
  {
    ghost var s := threads[..];
    var i := c.low;
    while i < c.high
      invariant c.low <= i <= c.high
      invariant forall k | 0 <= k < threads.Length ::
                  threads[k] == if c.low <= k < i then Activated(s[k], c.now, c.proc) else s[k]
    {
      if threads[i].affinity == c.proc {
        if threads[i].state == Waiting && threads[i].wakeupTime <= c.now {
          threads[i] := threads[i].(state := Runnable);
        }
        if threads[i].state == WaitNextActivation && threads[i].nextActivation <= c.now {
          threads[i] := threads[i].(ddl := threads[i].nextActivation + threads[i].deadline, state := Runnable,
                                    remainingTimeCapacity := threads[i].timeCapacity);
          threads[i] := threads[i].(nextActivation := NextActivation(threads[i]));
        }
      }
      i := i + 1;
    }
  }

  /** An election: what it knows, the table it finds, whom it elects, and the table it leaves. */
  datatype Election = Election(call: Call, before: seq<Thread>, elected: nat, after: seq<Thread>)

  ghost predicate SameBudget(t: Thread, t': Thread) {
    && t'.period == t.period && t'.timeCapacity == t.timeCapacity && t'.nextActivation == t.nextActivation
    && t'.remainingTimeCapacity == t.remainingTimeCapacity && t'.state == t.state
  }

  /** The policy leaves state and budget of thread `i` alone. */
  ghost predicate IsElection(e: Election, i: nat)
    ensures IsElection(e, i) ==> Arguments(e.call, |e.before|) && i < |e.before| == |e.after|
  {
    && Arguments(e.call, |e.before|) && |e.after| == |e.before| && i < |e.before| && i != e.call.idle
    && SameBudget(Prepared(e.before, e.call)[i], e.after[i])
  }

  /** The election takes the thread although it is not runnable, as it does with the main thread of a
      partition that is being initialized. */
  ghost predicate Forces(e: Election, i: nat)
    requires IsElection(e, i)
  {
    e.elected == i && Prepared(e.before, e.call)[i].state != Runnable
  }

  /** Whether the election charges the thread that has been running: not if it is for a partition in
      another mode than normal, or whose error thread goes on, and not for a main or error thread. */
  predicate Charges(before: seq<Thread>, c: Call)
    requires Arguments(c, |before|)
  {
    c.mode == Partitions.Normal && IsCharged(c) && !ErrorGoesOn(AllActivated(before, c), c)
  }

  /** A run of elections on one processor. Between two of them anything may happen to the thread, and
      to what runs on the processor: it may lock, wait, be unlocked whatever its state is, end its
      period, stop, be restarted, be given another release point, or lose the processor to an error
      thread. */
  ghost predicate Run(run: seq<Election>, i: nat) {
    && (forall k | 0 <= k < |run| :: IsElection(run[k], i))
    && forall k | 0 < k < |run| :: run[k - 1].call.now <= run[k].call.now
  }

  /** The thread never has a shorter period than `p`, nor more capacity than `c`. */
  ghost predicate Within(run: seq<Election>, i: nat, p: nat, c: nat)
    requires Run(run, i)
  {
    forall k | 0 <= k < |run| :: Fits(run[k].before[i], p, c)
  }

  ghost predicate Fits(t: Thread, p: nat, c: nat) {
    t.period >= p > 0 && 0 < t.timeCapacity <= c
  }

  function TimesElected(run: seq<Election>, i: nat): nat {
    if run == [] then 0 else TimesElected(run[..|run| - 1], i) + if run[|run| - 1].elected == i then 1 else 0
  }

  /** The elections of thread `i` that the next election did not charge. */
  ghost function Uncharged(run: seq<Election>, i: nat): nat
    requires Run(run, i)
  {
    if run == [] then 0 else
    var e := run[|run| - 1];
    Uncharged(run[..|run| - 1], i) + if e.call.running == i && !Charges(e.before, e.call) then 1 else 0
  }

  /** The elections of thread `i` after which something else ran by the time of the next one. */
  function Skipped(run: seq<Election>, i: nat): nat {
    if |run| <= 1 then 0 else
    Skipped(run[..|run| - 1], i) +
    if run[|run| - 2].elected == i && run[|run| - 1].call.running != i then 1 else 0
  }

  ghost function Forced(run: seq<Election>, i: nat): nat
    requires Run(run, i)
  {
    if run == [] then 0 else Forced(run[..|run| - 1], i) + if Forces(run[|run| - 1], i) then 1 else 0
  }

  /** The thread is not waiting for its next activation although it has no budget left. */
  predicate OutOfBudget(t: Thread) {
    t.state != WaitNextActivation && t.remainingTimeCapacity <= 0
  }

  /** How often the thread was taken out of waiting with no budget left, between elections. */
  ghost function Woken(run: seq<Election>, i: nat): nat
    requires Run(run, i)
  {
    if |run| <= 1 then 0 else
    var t, t' := run[|run| - 2].after[i], run[|run| - 1].before[i];
    Woken(run[..|run| - 1], i) + if OutOfBudget(t') && !OutOfBudget(t) then 1 else 0
  }

  function Budget(t: Thread): nat {
    if t.remainingTimeCapacity >= 1 then t.remainingTimeCapacity else 0
  }

  /** The budget that restarts gave back between elections. */
  ghost function Refilled(run: seq<Election>, i: nat): nat
    requires Run(run, i)
  {
    if |run| <= 1 then 0 else
    var t, t' := run[|run| - 2].after[i], run[|run| - 1].before[i];
    Refilled(run[..|run| - 1], i) + if Budget(t') > Budget(t) then Budget(t') - Budget(t) else 0
  }

  function Ahead(t: Thread, t': Thread): nat {
    if t'.nextActivation < t.nextActivation then t.nextActivation - t'.nextActivation else 0
  }

  /** By how much the next activation was moved forward in time, between elections. */
  ghost function Advanced(run: seq<Election>, i: nat): nat
    requires Run(run, i)
  {
    if |run| <= 1 then 0 else
    Advanced(run[..|run| - 1], i) + Ahead(run[|run| - 2].after[i], run[|run| - 1].before[i])
  }

  ghost function Excess(run: seq<Election>, i: nat): nat
    requires Run(run, i)
  {
    Uncharged(run, i) + Skipped(run, i) + Forced(run, i) + Woken(run, i) + Refilled(run, i)
  }

  /** A periodic thread, as created at `t0` and not yet elected. */
  ghost predicate Created(t: Thread, t0: nat) {
    && t.period > 0 && t.timeCapacity > 0 && t.remainingTimeCapacity == t.timeCapacity
    && t.nextActivation == t0 + t.period && t.state != WaitNextActivation
  }

  /** What one election does to thread `i`. */
  lemma PreparedThread(e: Election, i: nat)
    requires IsElection(e, i)
    ensures var t, c := e.before[i], e.call;
            var a := if c.low <= i < c.high then Activated(t, c.now, c.proc) else t;
            Prepared(e.before, c)[i] == if c.running == i && Charges(e.before, c) then Charged(a) else a
  {
  }

  /** How many more elections the thread may get before its next activation: one for each tick of
      budget that is not owed for the election that is still running, and one if it is runnable
      without any. */
  function Credit(t: Thread, running: bool): nat {
    if running then (if t.remainingTimeCapacity >= 1 then t.remainingTimeCapacity - 1 else 0)
    else if OutOfBudget(t) then 1 else Budget(t)
  }

  /** `activations` counts the budgets that the thread has had, `elections` its elections; `excess`
      bounds those that no activation paid for, and `ahead` the time by which activations came early. */
  ghost predicate Accounted(t: Thread, p: nat, c: nat, t0: nat, now: nat, activations: nat, elections: nat,
      excess: nat, ahead: nat, running: bool) {
    && Fits(t, p, c) && activations >= 1
    && t0 + activations * p <= t.nextActivation + ahead
    && t0 + activations * p <= now + p + ahead
    && elections + Credit(t, running) <= activations * c + excess
  }

  lemma AfterActivation(t: Thread, p: nat, c: nat, t0: nat, now: nat, activations: nat, elections: nat,
      excess: nat, ahead: nat, running: bool, proc: nat)
    returns (a: nat)
    requires Accounted(t, p, c, t0, now, activations, elections, excess, ahead, running)
    ensures Accounted(Activated(t, now, proc), p, c, t0, now, a, elections, excess, ahead, running)
  {
    OneMore(activations, p);
    OneMore(activations, c);
    a := if Activated(t, now, proc).nextActivation == t.nextActivation then activations else activations + 1;
  }

  /** What `Excess` and `Ahead` count between two elections. */
  function Given(t: Thread, t': Thread, running: bool, running': bool): nat {
    (if running && !running' then 1 else 0)
    + (if OutOfBudget(t') && !OutOfBudget(t) then 1 else 0)
    + (if Budget(t') > Budget(t) then Budget(t') - Budget(t) else 0)
  }

  /** Between elections a tick that is not owed any more, a wake-up without budget and a restart are the
      only ways to gain credit. */
  lemma BetweenAccounts(t: Thread, t': Thread, p: nat, c: nat, t0: nat, now: nat, activations: nat, elections: nat,
      excess: nat, ahead: nat, running: bool, running': bool)
    requires Accounted(t, p, c, t0, now, activations, elections, excess, ahead, running) && Fits(t', p, c)
    ensures Accounted(t', p, c, t0, now, activations, elections, excess + Given(t, t', running, running'),
                      ahead + Ahead(t, t'), running')
  {
  }

  /** One election keeps the account: an election of the thread uses one credit, and the tick that
      it ran is charged to its budget or to the excess. */
  lemma AccountStep(p: nat, c: nat, t0: nat, activations: nat, elections: nat, excess: nat, ahead: nat, e: Election,
      i: nat)
    returns (a: nat)
    requires IsElection(e, i)
    requires Accounted(e.before[i], p, c, t0, e.call.now, activations, elections, excess, ahead, e.call.running == i)
    ensures Accounted(e.after[i], p, c, t0, e.call.now, a, elections + (if e.elected == i then 1 else 0),
                      excess + (if e.call.running == i && !Charges(e.before, e.call) then 1 else 0)
                             + (if Forces(e, i) then 1 else 0), ahead, e.elected == i)
  {
    hide Prepared;
    hide Charges;
    PreparedThread(e, i);
    a := activations;
    if e.call.low <= i < e.call.high {
      a := AfterActivation(
        e.before[i], p, c, t0, e.call.now, activations, elections, excess, ahead, e.call.running == i, e.call.proc);
    }
  }

  /** What the last election adds to the counts. */
  lemma LastElection(run: seq<Election>, i: nat)
    requires |run| > 1 && Run(run, i)
    ensures var rest, t, last := run[..|run| - 1], run[|run| - 2], run[|run| - 1];
            && Run(rest, i) && IsElection(t, i) && IsElection(last, i) && t.call.now <= last.call.now
            && TimesElected(run, i) == TimesElected(rest, i) + (if last.elected == i then 1 else 0)
            && Advanced(run, i) == Advanced(rest, i) + Ahead(t.after[i], last.before[i])
            && Excess(run, i) == Excess(rest, i)
               + Given(t.after[i], last.before[i], t.elected == i, last.call.running == i)
               + (if last.call.running == i && !Charges(last.before, last.call) then 1 else 0)
               + (if Forces(last, i) then 1 else 0)
  {
    hide IsElection;
    hide Charges;
    hide Forces;
    hide Ahead;
    hide Budget;
    hide OutOfBudget;
  }

  lemma FirstElection(run: seq<Election>, i: nat)
    requires |run| == 1 && Run(run, i)
    ensures var last := run[0];
            && IsElection(last, i) && Advanced(run, i) == 0
            && TimesElected(run, i) == (if last.elected == i then 1 else 0)
            && Excess(run, i) == (if last.call.running == i && !Charges(last.before, last.call) then 1 else 0)
                                 + (if Forces(last, i) then 1 else 0)
  {
    hide IsElection;
    hide Charges;
    hide Forces;
    assert run[..0] == [];
    assert Run([], i) && Uncharged([], i) == 0 && Forced([], i) == 0;
  }

  lemma AtCreation(t: Thread, p: nat, c: nat, t0: nat, now: nat)
    requires Created(t, t0) && Fits(t, p, c) && t0 <= now
    ensures Accounted(t, p, c, t0, now, 1, 0, 0, 0, false)
  {
  }

  lemma TimePasses(t: Thread, p: nat, c: nat, t0: nat, now: nat, activations: nat, elections: nat, excess: nat,
      ahead: nat, running: bool, later: nat)
    requires Accounted(t, p, c, t0, now, activations, elections, excess, ahead, running) && now <= later
    ensures Accounted(t, p, c, t0, later, activations, elections, excess, ahead, running)
  {
  }

  lemma WithinLast(run: seq<Election>, i: nat, p: nat, c: nat)
    requires run != [] && Run(run, i) && Within(run, i, p, c)
    ensures Run(run[..|run| - 1], i) && Within(run[..|run| - 1], i, p, c)
    ensures IsElection(run[|run| - 1], i) && Fits(run[|run| - 1].before[i], p, c)
  {
    hide IsElection;
    hide Fits;
  }

  lemma {:induction false} Account(run: seq<Election>, i: nat, t0: nat, p: nat, c: nat) returns (a: nat)
    requires run != [] && Run(run, i) && IsElection(run[0], i) && Created(run[0].before[i], t0)
    requires t0 <= run[0].call.now && run[0].call.running != i && Within(run, i, p, c)
    ensures IsElection(run[|run| - 1], i)
    ensures var last := run[|run| - 1];
            Accounted(last.after[i], p, c, t0, last.call.now, a, TimesElected(run, i),
                      Excess(run, i), Advanced(run, i), last.elected == i)
  {
    hide *;
    var rest, last := run[..|run| - 1], run[|run| - 1];
    WithinLast(run, i, p, c);
    if rest == [] {
      FirstElection(run, i);
      AtCreation(last.before[i], p, c, t0, last.call.now);
      a := AccountStep(p, c, t0, 1, 0, 0, 0, last, i);
    } else {
      LastElection(run, i);
      var b := Account(rest, i, t0, p, c);
      var previous := run[|run| - 2];
      var t, t', was, now := previous.after[i], last.before[i], previous.elected == i, last.call.running == i;
      var elections := TimesElected(rest, i);
      BetweenAccounts(t, t', p, c, t0, previous.call.now, b, elections, Excess(rest, i), Advanced(rest, i), was, now);
      var excess := Excess(rest, i) + Given(t, t', was, now);
      TimePasses(t', p, c, t0, previous.call.now, b, elections, excess, Advanced(run, i), now, last.call.now);
      a := AccountStep(p, c, t0, b, elections, excess, Advanced(run, i), last, i);
    }
  }

  /** The budget bound, for every run: by its last election a periodic thread has been elected no more
      often than its capacity allows for each period that has begun, but for elections that were not
      charged, because the next one charged nobody or something else ran by then, or that took the
      thread although it was not runnable, wake-ups without budget, and budget given back by restarts;
      and periods begin early by as much as release points were moved. */
  lemma BudgetBound(run: seq<Election>, i: nat, t0: nat, p: nat, c: nat)
    requires run != [] && Run(run, i) && Created(run[0].before[i], t0)
    requires t0 <= run[0].call.now && run[0].call.running != i && Within(run, i, p, c)
    ensures var now := run[|run| - 1].call.now;
            && now >= t0 && p > 0
            && TimesElected(run, i) <= c * (1 + (now - t0 + Advanced(run, i)) / p)
                                       + Uncharged(run, i) + Skipped(run, i) + Forced(run, i)
                                       + Woken(run, i) + Refilled(run, i)
  {
    hide IsElection;
    hide Charges;
    hide Uncharged;
    hide Skipped;
    hide Forced;
    hide Woken;
    hide Refilled;
    hide Advanced;
    hide TimesElected;
    var now := run[|run| - 1].call.now;
    var a := Account(run, i, t0, p, c);
    TimeGoesOn(run, i);
    PeriodsBegun(TimesElected(run, i), a, c, p, now - t0 + Advanced(run, i), Excess(run, i));
  }

  lemma {:induction false} TimeGoesOn(run: seq<Election>, i: nat)
    requires run != [] && Run(run, i)
    ensures run[0].call.now <= run[|run| - 1].call.now
  {
    hide IsElection;
    if |run| > 1 {
      TimeGoesOn(run[..|run| - 1], i);
    }
  }

  lemma PeriodsBegun(elections: nat, a: nat, c: nat, p: nat, elapsed: nat, excess: nat)
    requires a >= 1 && p > 0 && a * p <= elapsed + p && elections <= a * c + excess
    ensures elections <= c * (1 + elapsed / p) + excess
  {
    var q := elapsed / p;
    OneMore(a - 1, p);
    OneMore(q, p);
    assert elapsed < (q + 1) * p;
    LessBy(q + 1, a - 1, p);
    LessBy(a, q + 1, c);
  }

  /** A thread of capacity 1 and period 10, created at 0, in one of its states. */
  function OneTick(state: ThreadState, left: int): Thread {
    Thread(1, 10, 0, 1, left, 10, 0, state, 0, 0, 0, 0, 0)
  }

  /** An election at `now` among this thread and the idle one, in a partition of the given mode. */
  function TickCall(now: nat, running: nat, mode: Partitions.Mode): Call {
    Call(now, 0, 0, 1, mode, 2, 2, 0, running, 1)
  }

  function TickElection(c: Call, t: Thread, elected: nat, t': Thread): Election {
    var idle := OneTick(Runnable, -1).(timeCapacity := -1);
    Election(c, [t, idle], elected, [t', idle])
  }

  /** The first two elections of each run below: the thread runs, then the idle one. */
  function FirstTicks(mode: Partitions.Mode, t: Thread): seq<Election> {
    [TickElection(TickCall(0, 1, Partitions.Normal), OneTick(Runnable, 1), 0, OneTick(Runnable, 1)),
     TickElection(TickCall(1, 0, mode), OneTick(Runnable, 1), 1, t)]
  }

  ghost predicate ExceedsBy(run: seq<Election>, uncharged: nat, skipped: nat, woken: nat, refilled: nat,
      advanced: nat)
  {
    && |run| == 3 && Run(run, 0) && Within(run, 0, 10, 1) && Created(run[0].before[0], 0)
    && run[0].call.now == 0 && run[0].call.running != 0 && run[2].call.now < 10
    && TimesElected(run, 0) == 2 && 1 * (1 + run[2].call.now / 10) == 1
    && Uncharged(run, 0) == uncharged && Skipped(run, 0) == skipped && Forced(run, 0) == 0
    && Woken(run, 0) == woken && Refilled(run, 0) == refilled && Advanced(run, 0) == advanced
  }

  lemma ThreeElections(run: seq<Election>, i: nat)
    requires |run| == 3
    ensures TimesElected(run, i) == (if run[0].elected == i then 1 else 0)
                                    + (if run[1].elected == i then 1 else 0) + (if run[2].elected == i then 1 else 0)
  {
    var one, two := run[..1], run[..2];
    assert two[..1] == one && one[..0] == [];
    assert TimesElected(one, i) == if run[0].elected == i then 1 else 0;
    assert TimesElected(two, i) == TimesElected(one, i) + if run[1].elected == i then 1 else 0;
  }

  lemma ThreeCharges(run: seq<Election>, i: nat)
    requires |run| == 3 && Run(run, i)
    ensures Uncharged(run, i) ==
            (if run[0].call.running == i && !Charges(run[0].before, run[0].call) then 1 else 0)
            + (if run[1].call.running == i && !Charges(run[1].before, run[1].call) then 1 else 0)
            + (if run[2].call.running == i && !Charges(run[2].before, run[2].call) then 1 else 0)
  {
    hide IsElection;
    hide Charges;
    var one, two := run[..1], run[..2];
    assert two[..1] == one && one[..0] == [];
    assert Uncharged(one, i) == if run[0].call.running == i && !Charges(run[0].before, run[0].call) then 1 else 0;
    assert Uncharged(two, i) == Uncharged(one, i) +
           if run[1].call.running == i && !Charges(run[1].before, run[1].call) then 1 else 0;
  }

  lemma ThreeSkips(run: seq<Election>, i: nat)
    requires |run| == 3
    ensures Skipped(run, i) ==
            (if run[0].elected == i && run[1].call.running != i then 1 else 0)
            + (if run[1].elected == i && run[2].call.running != i then 1 else 0)
  {
    var one, two := run[..1], run[..2];
    assert two[..1] == one;
    assert Skipped(one, i) == 0;
    assert Skipped(two, i) == if run[0].elected == i && run[1].call.running != i then 1 else 0;
  }

  lemma {:induction false} NeverForced(run: seq<Election>, i: nat)
    requires Run(run, i) && forall k | 0 <= k < |run| :: !Forces(run[k], i)
    ensures Forced(run, i) == 0
  {
    hide IsElection;
    hide Forces;
    if run != [] {
      NeverForced(run[..|run| - 1], i);
    }
  }

  lemma ThreeAdvances(run: seq<Election>, i: nat)
    requires |run| == 3 && Run(run, i)
    ensures Advanced(run, i) == Ahead(run[0].after[i], run[1].before[i]) + Ahead(run[1].after[i], run[2].before[i])
  {
    hide IsElection;
    hide Ahead;
    var one, two := run[..1], run[..2];
    assert two[..1] == one;
    assert Advanced(one, i) == 0;
    assert Advanced(two, i) == Ahead(run[0].after[i], run[1].before[i]);
  }

  lemma ThreeWakeUps(run: seq<Election>, i: nat)
    requires |run| == 3 && Run(run, i)
    ensures Woken(run, i) ==
            (if OutOfBudget(run[1].before[i]) && !OutOfBudget(run[0].after[i]) then 1 else 0)
            + (if OutOfBudget(run[2].before[i]) && !OutOfBudget(run[1].after[i]) then 1 else 0)
  {
    hide IsElection;
    hide OutOfBudget;
    var one, two := run[..1], run[..2];
    assert two[..1] == one;
    assert Woken(one, i) == 0;
    assert Woken(two, i) == if OutOfBudget(run[1].before[i]) && !OutOfBudget(run[0].after[i]) then 1 else 0;
  }

  lemma ThreeRefills(run: seq<Election>, i: nat)
    requires |run| == 3 && Run(run, i)
    ensures Refilled(run, i) ==
            (if Budget(run[1].before[i]) > Budget(run[0].after[i])
             then Budget(run[1].before[i]) - Budget(run[0].after[i]) else 0)
            + (if Budget(run[2].before[i]) > Budget(run[1].after[i])
               then Budget(run[2].before[i]) - Budget(run[1].after[i]) else 0)
  {
    hide IsElection;
    hide Budget;
    var one, two := run[..1], run[..2];
    assert two[..1] == one;
    assert Refilled(one, i) == 0;
    assert Refilled(two, i) ==
           if Budget(run[1].before[i]) > Budget(run[0].after[i])
           then Budget(run[1].before[i]) - Budget(run[0].after[i]) else 0;
  }

  /** Capacity 1 for each period of 10, and two elections at ticks 0 and 2: because the thread is
      unlocked after its budget has ended. */
  lemma ExceedsByWakeUp()
    ensures exists run :: ExceedsBy(run, 0, 0, 1, 0, 0)
  {
    var run := FirstTicks(Partitions.Normal, OneTick(WaitNextActivation, 0)) +
      [TickElection(TickCall(2, 1, Partitions.Normal), OneTick(Runnable, 0), 0, OneTick(Runnable, 0))];
    ThreeElections(run, 0);
    NeverForced(run, 0);
    ThreeAdvances(run, 0);
    ThreeCharges(run, 0);
    ThreeSkips(run, 0);
    ThreeWakeUps(run, 0);
    ThreeRefills(run, 0);
    assert ExceedsBy(run, 0, 0, 1, 0, 0);
  }

  /** The same, because the election at tick 1 is for a partition that is being initialized and
      charges nobody. */
  lemma ExceedsByUnchargedElection()
    ensures exists run :: ExceedsBy(run, 1, 0, 0, 0, 0)
  {
    var run := FirstTicks(Partitions.InitWarm, OneTick(Runnable, 1)) +
      [TickElection(TickCall(2, 1, Partitions.Normal), OneTick(Runnable, 1), 0, OneTick(Runnable, 1))];
    ThreeElections(run, 0);
    NeverForced(run, 0);
    ThreeAdvances(run, 0);
    ThreeCharges(run, 0);
    ThreeSkips(run, 0);
    ThreeWakeUps(run, 0);
    ThreeRefills(run, 0);
    assert ExceedsBy(run, 1, 0, 0, 0, 0);
  }

  /** The same, because the thread is restarted and unlocked. */
  lemma ExceedsByRestart()
    ensures exists run :: ExceedsBy(run, 0, 0, 0, 1, 0)
  {
    var run := FirstTicks(Partitions.Normal, OneTick(WaitNextActivation, 0)) +
      [TickElection(TickCall(2, 1, Partitions.Normal), OneTick(Runnable, 1), 0, OneTick(Runnable, 1))];
    ThreeElections(run, 0);
    NeverForced(run, 0);
    ThreeAdvances(run, 0);
    ThreeCharges(run, 0);
    ThreeSkips(run, 0);
    ThreeWakeUps(run, 0);
    ThreeRefills(run, 0);
    assert ExceedsBy(run, 0, 0, 0, 1, 0);
  }

  /** The same, because the start of the thread is set anew, at tick 2. */
  lemma ExceedsByEarlyRelease()
    ensures exists run :: ExceedsBy(run, 0, 0, 0, 0, 8)
  {
    var run := FirstTicks(Partitions.Normal, OneTick(WaitNextActivation, 0)) +
      [TickElection(TickCall(2, 1, Partitions.Normal), OneTick(WaitNextActivation, 0).(nextActivation := 2),
                    0, OneTick(Runnable, 1).(nextActivation := 12, ddl := 2))];
    ThreeElections(run, 0);
    NeverForced(run, 0);
    ThreeAdvances(run, 0);
    ThreeCharges(run, 0);
    ThreeSkips(run, 0);
    ThreeWakeUps(run, 0);
    ThreeRefills(run, 0);
    assert ExceedsBy(run, 0, 0, 0, 0, 8);
  }

  /** The same, because the error thread is switched to without an election before tick 1: that
      election finds it running, charges nobody, and elects the thread again. */
  lemma ExceedsByErrorThread()
    ensures exists run: seq<Election> ::
              ExceedsBy(run, 0, 1, 0, 0, 0) && run[1].call.running == run[1].call.errorThread
  {
    var t, idle := OneTick(Runnable, 1), OneTick(Runnable, -1).(timeCapacity := -1);
    var error := OneTick(Runnable, 1000).(period := 100, nextActivation := 0);
    var run := [
      Election(Call(0, 0, 0, 2, Partitions.Normal, 3, 1, 2, 2, 2), [t, error, idle], 0, [t, error, idle]),
      Election(Call(1, 0, 0, 2, Partitions.Normal, 3, 1, 0, 1, 2), [t, error, idle], 0, [t, error, idle]),
      Election(Call(2, 0, 0, 2, Partitions.Normal, 3, 1, 0, 0, 2), [t, error, idle], 2,
               [OneTick(WaitNextActivation, 0), error, idle])];
    ThreeElections(run, 0);
    NeverForced(run, 0);
    ThreeAdvances(run, 0);
    ThreeCharges(run, 0);
    ThreeSkips(run, 0);
    ThreeWakeUps(run, 0);
    ThreeRefills(run, 0);
    assert ExceedsBy(run, 0, 1, 0, 0, 0);
  }
}
