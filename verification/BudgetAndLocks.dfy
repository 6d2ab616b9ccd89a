/** Whether a thread that waits for a lock goes on waiting across elections: kernel/core/sched.c,
    lines 317-352, 395-431 and 1290-1298, with `pok_lockobj_lock`, kernel/core/lockobj.c, lines
    265-285. */
module BudgetAndLocks {
  import B = ProcessorBudget
  import L = LockProtocol
  import O = LockObject
  import Partitions
  import opened Threads

  /** The thread waits for a lock without timeout, or with one whose deadline is still to come. */
  predicate Waits(t: Thread, now: nat) {
    t.state == Lock || (t.state == Waiting && t.wakeupTime > now)
  }

  /** The deadline that `pok_lockobj_lock` keeps while the thread waits. */
  function DeadlineOf(t: Thread): nat {
    if t.state == Waiting then t.wakeupTime else 0
  }

  /** The election finds the thread running, charges it, and uses up its budget. */
  ghost predicate Exhausts(threads: seq<Thread>, c: B.Call, i: nat)
    requires B.Arguments(c, |threads|) && i < |threads|
  {
    c.running == i && B.Charges(threads, c) && threads[i].timeCapacity > 0 && threads[i].remainingTimeCapacity <= 1
  }

  /** One election leaves a waiting thread waiting if and only if it does not use up its budget. */
  lemma StaysWaitingIff(threads: seq<Thread>, c: B.Call, i: nat)
    requires B.Arguments(c, |threads|) && i < |threads| && Waits(threads[i], c.now)
    ensures B.Prepared(threads, c)[i].state == threads[i].state <==> !Exhausts(threads, c, i)
    ensures Exhausts(threads, c, i) ==> B.Prepared(threads, c)[i].state == WaitNextActivation
  {
  }

  /** With the fields that the budget does not use, but the wait does. */
  ghost predicate SameWait(t: Thread, t': Thread) {
    B.SameBudget(t, t') && t'.wakeupTime == t.wakeupTime && t'.affinity == t.affinity
  }

  /** A run of elections in which nobody but the elections touches the thread, and which run it only
      if they elect it, and elect it only if it is runnable. */
  ghost predicate Undisturbed(run: seq<B.Election>, i: nat)
    requires B.Run(run, i)
  {
    && (forall k | 0 <= k < |run| ::
          && run[k].after[i].wakeupTime == run[k].before[i].wakeupTime
          && run[k].after[i].affinity == run[k].before[i].affinity)
    && (forall k | 0 < k < |run| :: SameWait(run[k - 1].after[i], run[k].before[i]))
    && (forall k | 0 < k < |run| :: run[k].call.running == i ==> run[k - 1].elected == i)
    && forall k | 0 <= k < |run| :: !B.Forces(run[k], i)
  }

  lemma WaitingIsNotElected(e: B.Election, i: nat)
    requires B.IsElection(e, i) && !B.Forces(e, i) && Waits(e.before[i], e.call.now) && !Exhausts(e.before, e.call, i)
    ensures e.after[i].state == e.before[i].state && e.elected != i
  {
    StaysWaitingIff(e.before, e.call, i);
  }

  lemma {:induction false} WaitingSoFar(run: seq<B.Election>, i: nat, k: nat)
    requires B.Run(run, i) && k < |run| && Undisturbed(run, i)
    requires Waits(run[0].before[i], run[k].call.now) && !Exhausts(run[0].before, run[0].call, i)
    ensures run[k].after[i].state == run[0].before[i].state && run[k].after[i].wakeupTime == run[0].before[i].wakeupTime
    ensures run[k].elected != i
  {
    if k > 0 {
      WaitingSoFar(run, i, k - 1);
      assert SameWait(run[k - 1].after[i], run[k].before[i]);
    }
    WaitingIsNotElected(run[k], i);
  }

  /** A thread that has begun to wait for a lock goes on waiting, through all elections of a run before
      its deadline, if and only if the first of them, the one that it calls itself, does not use up its
      budget. */
  lemma StaysWaitingThroughoutIff(run: seq<B.Election>, i: nat)
    requires run != [] && B.Run(run, i) && Undisturbed(run, i) && Waits(run[0].before[i], run[0].call.now)
    ensures (forall k | 0 <= k < |run| && Waits(run[0].before[i], run[k].call.now) ::
               run[k].after[i].state == run[0].before[i].state)
            <==> !Exhausts(run[0].before, run[0].call, i)
  {
    StaysWaitingIff(run[0].before, run[0].call, i);
    if !Exhausts(run[0].before, run[0].call, i) {
      forall k | 0 <= k < |run| && Waits(run[0].before[i], run[k].call.now)
        ensures run[k].after[i].state == run[0].before[i].state
      {
        WaitingSoFar(run, i, k);
      }
    } else {
      assert run[0].after[i].state != run[0].before[i].state;
    }
  }

  /** A later election of the thread's partition finds the thread as the first one left it, at or
      after its next activation, but not after its deadline. */
  ghost predicate LaterElection(first: B.Election, c: B.Call, threads: seq<Thread>, i: nat)
    requires B.IsElection(first, i)
  {
    && B.Arguments(c, |threads|) && i < |threads| && c.low <= i < c.high && c.running != i
    && SameWait(first.after[i], threads[i]) && threads[i].affinity == c.proc
    && threads[i].wakeupTime == first.before[i].wakeupTime
    && threads[i].nextActivation <= c.now && Waits(first.before[i], c.now)
  }

  /** A thread that waits for a lock, with or without timeout, is made runnable by an election before its
      deadline if and only if the election that blocked it used up its budget. */
  lemma WokenIffExhausted(first: B.Election, c: B.Call, threads: seq<Thread>, i: nat)
    requires B.IsElection(first, i) && Waits(first.before[i], first.call.now) && LaterElection(first, c, threads, i)
    ensures B.Prepared(threads, c)[i].state == Runnable <==> Exhausts(first.before, first.call, i)
  {
    StaysWaitingIff(first.before, first.call, i);
  }

  /** Resumed before its deadline, without having been handed the resource, the thread becomes a second
      holder. */
  lemma SecondHolder(config: O.Config, s: L.State, i: nat, now: nat)
    requires L.Placed(config, s) && L.Exclusive(s) && i in s.waiting && i !in s.holders
    requires !L.PastDeadline(s.waiting[i], now)
    ensures !L.MayResume(s, i, now)
    ensures var resumed := L.Next(config, s, L.Resuming(i, now));
            i in resumed.holders && !L.Exclusive(resumed)
  {
    hide L.Next;
    hide L.Exclusive;
    hide L.PastDeadline;
    L.ResumptionIsSafeIff(config, s, i, now);
    L.ResumesUnasked(config, s, i, now);
  }

  /** A thread has begun to wait for a lock, has been handed nothing since, and is elected before its
      deadline. */
  ghost predicate ElectedEarly(run: seq<B.Election>, i: nat, k: nat, config: O.Config, s: L.State) {
    && B.Run(run, i) && k < |run| && Undisturbed(run, i)
    && Waits(run[0].before[i], run[k].call.now) && run[k].elected == i
    && L.Placed(config, s) && L.Exclusive(s) && i !in s.holders
    && i in s.waiting && s.waiting[i] == DeadlineOf(run[0].before[i])
  }

  /** The budget breaks the lock, and nothing else in the elections does. If a thread that has begun to
      wait for a lock, and has been handed nothing since, is elected before its deadline anywhere in a
      run, then the election that it called itself used up its budget; `pok_lockobj_lock` goes on and
      returns OK, which the protocol does not allow, and there are two holders. */
  lemma BudgetBreaksLock(run: seq<B.Election>, i: nat, k: nat, config: O.Config, s: L.State)
    requires ElectedEarly(run, i, k, config, s)
    ensures Exhausts(run[0].before, run[0].call, i)
    ensures !L.MayResume(s, i, run[k].call.now)
    ensures var resumed := L.Next(config, s, L.Resuming(i, run[k].call.now));
            i in resumed.holders && !L.Exclusive(resumed)
  {
    hide L.Next;
    hide L.Placed;
    hide L.Exclusive;
    hide L.MayResume;
    hide B.IsElection;
    hide B.Forces;
    hide Undisturbed;
    hide Exhausts;
    if !Exhausts(run[0].before, run[0].call, i) {
      WaitingSoFar(run, i, k);
    }
    SecondHolder(config, s, i, run[k].call.now);
  }

  /** The thread waits for the lock at tick 1 with one tick of budget, which that election uses up; its
      next activation is at tick 10, and its deadline, if any, later. */
  function TwoTicks(t: Thread): seq<B.Election> {
    [B.TickElection(B.TickCall(1, 0, Partitions.Normal), t, 1,
                    t.(state := WaitNextActivation, remainingTimeCapacity := 0)),
     B.TickElection(B.TickCall(10, 1, Partitions.Normal), t.(state := WaitNextActivation, remainingTimeCapacity := 0),
                    0, t.(state := Runnable, nextActivation := 20, ddl := 10))]
  }

  lemma Blocked(config: O.Config, timeout: nat) returns (s: L.State)
    requires config.kind == O.Mutex && config.threads >= 2
    ensures s == L.Run(config, L.Start(config, 0), [L.Acquiring(1, 0, 0), L.Acquiring(0, timeout, 1)])
    ensures L.Placed(config, s) && L.Exclusive(s) && s.holders == {1}
    ensures s.waiting == map[0 := L.Deadline(timeout, 1)]
  {
    var steps := [L.Acquiring(1, 0, 0), L.Acquiring(0, timeout, 1)];
    var s1 := L.Next(config, L.Start(config, 0), steps[0]);
    s := L.Next(config, s1, steps[1]);
    assert steps[1..] == [L.Acquiring(0, timeout, 1)] && steps[1..][1..] == [];
    assert L.Run(config, s1, steps[1..]) == L.Run(config, s, []);
    assert s.lock.queue == [0];
  }

  lemma TwoTicksRun(t: Thread)
    requires t == B.OneTick(t.state, 1).(wakeupTime := t.wakeupTime) && Waits(t, 10)
    ensures var run := TwoTicks(t);
            && |run| == 2 && B.Run(run, 0) && Undisturbed(run, 0) && run[0].before[0] == t
            && run[1].elected == 0 && run[1].call.now == 10
  {
    var run := TwoTicks(t);
    assert B.Prepared(run[0].before, run[0].call)[0] == t.(state := WaitNextActivation, remainingTimeCapacity := 0);
  }

  lemma BreaksLock(t: Thread, config: O.Config, timeout: nat)
    requires t == B.OneTick(t.state, 1).(wakeupTime := t.wakeupTime) && Waits(t, 10)
    requires config.kind == O.Mutex && config.threads >= 2 && L.Deadline(timeout, 1) == DeadlineOf(t)
    ensures exists s :: ElectedEarly(TwoTicks(t), 0, 1, config, s)
  {
    hide B.Run;
    hide Undisturbed;
    hide TwoTicks;
    hide L.Placed;
    hide L.Exclusive;
    hide L.Run;
    hide L.Deadline;
    hide Waits;
    hide DeadlineOf;
    hide B.OneTick;
    TwoTicksRun(t);
    var s := Blocked(config, timeout);
    assert ElectedEarly(TwoTicks(t), 0, 1, config, s);
  }

  /** It happens, to a thread that waits without timeout and to one that waits until tick 100. */
  lemma BudgetDoesBreakLock(config: O.Config)
    requires config.kind == O.Mutex && config.threads >= 2
    ensures exists s :: ElectedEarly(TwoTicks(B.OneTick(Lock, 1)), 0, 1, config, s)
    ensures exists s :: ElectedEarly(TwoTicks(B.OneTick(Waiting, 1).(wakeupTime := 100)), 0, 1, config, s)
  {
    hide ElectedEarly;
    hide TwoTicks;
    BreaksLock(B.OneTick(Lock, 1), config, 0);
    BreaksLock(B.OneTick(Waiting, 1).(wakeupTime := 100), config, 99);
  }
}
