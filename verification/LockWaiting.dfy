/** How long a thread waits for a lock object, in unlocks: kernel/core/lockobj.c, lines 251-377 and
    439-459. */
module LockWaiting {
  import opened WaitQueue
  import opened LockObject
  import opened LockProtocol

  /** How many threads are served before `t`. */
  function Before(queue: seq<nat>, t: nat): nat {
    if queue == [] || queue[0] == t then 0 else 1 + Before(queue[1..], t)
  }

  lemma {:induction false} BeforeIs(queue: seq<nat>, t: nat, k: nat)
    requires k < |queue| && queue[k] == t && t !in queue[..k]
    ensures Before(queue, t) == k
  {
    if k > 0 {
      assert queue[0] in queue[..k];
      assert queue[1..][..k - 1] == queue[..k][1..];
      BeforeIs(queue[1..], t, k - 1);
    }
  }

  lemma {:induction false} BeforeFinds(queue: seq<nat>, t: nat)
    requires t in queue
    ensures Before(queue, t) < |queue| && queue[Before(queue, t)] == t && t !in queue[..Before(queue, t)]
  {
    if queue[0] != t {
      BeforeFinds(queue[1..], t);
      var k := Before(queue, t);
      assert queue[..k] == [queue[0]] + queue[1..][..k - 1];
    }
  }

  /** A thread that joins behind delays nobody. */
  lemma JoinsLast(queue: seq<nat>, u: nat, t: nat)
    requires t in queue
    ensures Before(queue + [u], t) == Before(queue, t)
  {
    BeforeFinds(queue, t);
    var k := Before(queue, t);
    assert (queue + [u])[..k] == queue[..k];
    BeforeIs(queue + [u], t, k);
  }

  lemma JoinsBefore(queue: seq<nat>, u: nat, i: nat, t: nat, k: nat)
    requires i <= k < |queue| && queue[k] == t && t !in queue[..k] && u != t
    ensures Before(queue[..i] + [u] + queue[i..], t) == k + 1
  {
    hide Before;
    var after := queue[..i] + [u] + queue[i..];
    assert after[..k + 1] == queue[..i] + [u] + queue[i..k];
    assert queue[..k] == queue[..i] + queue[i..k];
    BeforeIs(after, t, k + 1);
  }

  lemma JoinsBehind(queue: seq<nat>, u: nat, i: nat, t: nat, k: nat)
    requires k < i <= |queue| && queue[k] == t && t !in queue[..k]
    ensures Before(queue[..i] + [u] + queue[i..], t) == k
  {
    hide Before;
    var after := queue[..i] + [u] + queue[i..];
    assert after[..k] == queue[..k];
    BeforeIs(after, t, k);
  }

  /** A thread that joins by priority delays those of lower priority by one. */
  lemma JoinsByPriority(queue: seq<nat>, u: nat, priority: nat -> nat, t: nat)
    requires t in queue && u != t && Descending(queue, priority)
    ensures Before(InsertByPriority(queue, u, priority), t)
            == Before(queue, t) + if priority(u) > priority(t) then 1 else 0
  {
    hide Before;
    hide Place;
    BeforeFinds(queue, t);
    var k, i := Before(queue, t), Place(queue, u, priority);
    if i <= k {
      NoneAbove(queue, u, priority);
      JoinsBefore(queue, u, i, t, k);
    } else {
      JoinsBehind(queue, u, i, t, k);
    }
  }

  /** A thread that leaves delays nobody. */
  lemma {:induction false} Leaves(queue: seq<nat>, u: nat, t: nat)
    requires u != t
    ensures Before(RemoveFirst(queue, u), t) <= Before(queue, t)
  {
    if queue != [] && queue[0] != u && queue[0] != t {
      Leaves(queue[1..], u, t);
      assert ([queue[0]] + RemoveFirst(queue[1..], u))[1..] == RemoveFirst(queue[1..], u);
    }
  }

  lemma RemoveKeepsOrder(queue: seq<nat>, u: nat, priority: nat -> nat)
    requires Distinct(queue) && Descending(queue, priority)
    ensures Descending(RemoveFirst(queue, u), priority)
  {
    hide RemoveFirst;
    if k :| 0 <= k < |queue| && queue[k] == u {
      RemoveAt(queue, u, k);
    } else {
      RemoveAbsent(queue, u);
    }
  }

  ghost predicate Ordered(c: Config, queue: seq<nat>) {
    c.discipline == ByPriority ==> Descending(queue, c.priority)
  }

  /** The step puts a thread in front of `t`. */
  predicate Overtakes(c: Config, s: State, step: Step, t: nat) {
    c.discipline == ByPriority && step.Acquiring? && s.lock.value == 0 && c.priority(step.t) > c.priority(t)
  }

  /** The queue of waiters after a step, as long as `t` is one of them: an unlock takes the first away,
      and only an overtaking thread comes before `t`. */
  lemma WaitStep(c: Config, s: State, step: Step, t: nat)
    requires Placed(c, s) && (s.lock.value > 0 ==> s.lock.queue == []) && Ordered(c, s.lock.queue)
    requires Enabled(c, s, step) && t in s.waiting && t in Next(c, s, step).waiting
    ensures var queue := Next(c, s, step).lock.queue;
            Before(queue, t) + (if Unlocks(step) then 1 else 0)
            <= Before(s.lock.queue, t) + (if Overtakes(c, s, step, t) then 1 else 0)
  {
    assert t in s.lock.queue && s.lock.value == 0;
    match step
    case Acquiring(u, timeout, now) => AcquireStep(c, s, u, t);
    case Resuming(u, now) => ResumeStep(c, s, u, now, t);
    case Unlocking(u) => UnlockStep(c, s, u, t);
    case WaitingForEvent(u) => UnlockStep(c, s, u, t);
    case _ =>
  }

  lemma AcquireStep(c: Config, s: State, u: nat, t: nat)
    requires Placed(c, s) && s.lock.value == 0 && Ordered(c, s.lock.queue) && t in s.lock.queue
    requires u < c.threads && Free(s, u)
    ensures var queue := Acquire(c, s.lock, u).queue;
            Before(queue, t) == Before(s.lock.queue, t)
                                + if c.discipline == ByPriority && c.priority(u) > c.priority(t) then 1 else 0
  {
    hide Before;
    hide InsertByPriority;
    hide Descending;
    RoomForNewcomer(s.lock.queue, c.threads, u);
    if c.discipline == ByPriority {
      JoinsByPriority(s.lock.queue, u, c.priority, t);
    } else {
      JoinsLast(s.lock.queue, u, t);
    }
  }

  lemma ResumeStep(c: Config, s: State, u: nat, now: nat, t: nat)
    requires Placed(c, s) && MayResume(s, u, now)
    requires t in s.waiting && t in Next(c, s, Resuming(u, now)).waiting
    ensures var queue := Next(c, s, Resuming(u, now)).lock.queue;
            Before(queue, t) <= Before(s.lock.queue, t)
  {
    hide Before;
    hide RemoveFirst;
    Leaves(s.lock.queue, u, t);
  }

  lemma UnlockStep(c: Config, s: State, u: nat, t: nat)
    requires Placed(c, s) && s.lock.value == 0
    requires t in s.waiting && t in UnlockBy(c, s, u).waiting
    ensures var queue := UnlockBy(c, s, u).lock.queue;
            Before(queue, t) + 1 == Before(s.lock.queue, t)
  {
    assert t in s.lock.queue;
  }

  /** Thread `t` waits before and after every step. */
  ghost predicate StillWaits(c: Config, s: State, steps: seq<Step>, t: nat)
    decreases |steps|
  {
    t in s.waiting && (steps == [] || StillWaits(c, Next(c, s, steps[0]), steps[1..], t))
  }

  ghost function OvertakenIn(c: Config, s: State, steps: seq<Step>, t: nat): nat
    decreases |steps|
  {
    if steps == [] then 0
    else (if Overtakes(c, s, steps[0], t) then 1 else 0) + OvertakenIn(c, Next(c, s, steps[0]), steps[1..], t)
  }

  /** Bounded waiting over every interleaving: as long as a thread waits there have been no more unlocks
      than there were threads before it and threads that have overtaken it. With one more, it has been
      handed the resource or has timed out. */
  lemma {:induction false} BoundedWaiting(c: Config, initial: nat, s: State, steps: seq<Step>, t: nat)
    requires Inv(c, initial, s) && Ordered(c, s.lock.queue) && IsRun(c, s, steps) && StillWaits(c, s, steps, t)
    ensures UnlocksIn(steps) <= Before(s.lock.queue, t) + OvertakenIn(c, s, steps, t)
    decreases |steps|
  {
    if steps != [] {
      var s' := Next(c, s, steps[0]);
      StepKeepsInv(c, initial, s, steps[0]);
      WaitStep(c, s, steps[0], t);
      OrderStep(c, s, steps[0]);
      BoundedWaiting(c, initial, s', steps[1..], t);
    }
  }

  /** First in, first out: nobody overtakes. */
  lemma {:induction false} NobodyOvertakes(c: Config, s: State, steps: seq<Step>, t: nat)
    requires c.discipline == FirstInFirstOut
    ensures OvertakenIn(c, s, steps, t) == 0
    decreases |steps|
  {
    if steps != [] {
      NobodyOvertakes(c, Next(c, s, steps[0]), steps[1..], t);
    }
  }

  lemma OrderStep(c: Config, s: State, step: Step)
    requires Placed(c, s) && (s.lock.value > 0 ==> s.lock.queue == []) && Ordered(c, s.lock.queue)
    requires Enabled(c, s, step)
    ensures Ordered(c, Next(c, s, step).lock.queue)
  {
    hide InsertByPriority;
    hide RemoveFirst;
    if step.Acquiring? && s.lock.value == 0 {
      RoomForNewcomer(s.lock.queue, c.threads, step.t);
      if c.discipline == ByPriority {
        InsertKeepsOrder(s.lock.queue, step.t, c.priority);
      }
    } else if step.Resuming? && c.discipline == ByPriority {
      RemoveKeepsOrder(s.lock.queue, step.t, c.priority);
    }
  }

  lemma {:induction false} StaysOrdered(c: Config, initial: nat, s: State, steps: seq<Step>)
    requires Inv(c, initial, s) && Ordered(c, s.lock.queue) && IsRun(c, s, steps)
    ensures Inv(c, initial, Run(c, s, steps)) && Ordered(c, Run(c, s, steps).lock.queue)
    decreases |steps|
  {
    if steps != [] {
      hide Ordered;
      StepKeepsInv(c, initial, s, steps[0]);
      OrderStep(c, s, steps[0]);
      StaysOrdered(c, initial, Next(c, s, steps[0]), steps[1..]);
    }
  }

  /** Bounded waiting for a created object: whatever has happened `before`, and whatever happens next,
      a thread that waits all the time has seen no more unlocks than there were threads before it and
      threads that have overtaken it; of the latter there are none if the object serves in order of
      arrival. */
  lemma WaitIsBounded(c: Config, initial: nat, before: seq<Step>, steps: seq<Step>, t: nat)
    requires IsRun(c, Start(c, initial), before)
    requires var s := Run(c, Start(c, initial), before); IsRun(c, s, steps) && StillWaits(c, s, steps, t)
    ensures var s := Run(c, Start(c, initial), before);
            && UnlocksIn(steps) <= Before(s.lock.queue, t) + OvertakenIn(c, s, steps, t)
            && (c.discipline == FirstInFirstOut ==> UnlocksIn(steps) <= Before(s.lock.queue, t))
  {
    var s := Run(c, Start(c, initial), before);
    StartIsSafe(c, initial);
    StaysOrdered(c, initial, Start(c, initial), before);
    BoundedWaiting(c, initial, s, steps, t);
    if c.discipline == FirstInFirstOut {
      NobodyOvertakes(c, s, steps, t);
    }
  }

  /** Thread `t` waits for the event before and after every step. */
  ghost predicate StillWaitsForEvent(c: Config, s: State, steps: seq<Step>, t: nat)
    decreases |steps|
  {
    t in s.eventWaiting && (steps == [] || StillWaitsForEvent(c, Next(c, s, steps[0]), steps[1..], t))
  }

  function SignalsIn(steps: seq<Step>): nat {
    if steps == [] then 0 else (if steps[0].Signalling? then 1 else 0) + SignalsIn(steps[1..])
  }

  /** How many threads of higher priority begin to wait for the event. */
  function HigherIn(c: Config, steps: seq<Step>, t: nat): nat {
    if steps == [] then 0
    else (if steps[0].QueueingForEvent? && c.priority(steps[0].t) > c.priority(t) then 1 else 0)
         + HigherIn(c, steps[1..], t)
  }

  lemma UnlockLeavesEvents(c: Config, s: State, u: nat)
    ensures UnlockBy(c, s, u).eventQueue == s.eventQueue && UnlockBy(c, s, u).eventWaiting == s.eventWaiting
  {
  }

  lemma EventOrder(c: Config, s: State, step: Step)
    requires Placed(c, s) && Enabled(c, s, step) && Descending(s.eventQueue, c.priority)
    ensures Descending(Next(c, s, step).eventQueue, c.priority)
  {
    hide InsertByPriority;
    hide RemoveFirst;
    hide UnlockBy;
    match step
    case Unlocking(u) => UnlockLeavesEvents(c, s, u);
    case WaitingForEvent(u) => UnlockLeavesEvents(c, s, u);
    case QueueingForEvent(u, timeout, now) =>
      RoomForNewcomer(s.eventQueue, c.threads, u);
      InsertKeepsOrder(s.eventQueue, u, c.priority);
    case EventTimeout(u, now) => RemoveKeepsOrder(s.eventQueue, u, c.priority);
    case _ =>
  }

  /** A signal takes the first waiter away and a broadcast all of them; whoever begins to wait delays
      those of lower priority. */
  lemma EventStep(c: Config, s: State, step: Step, t: nat)
    requires Placed(c, s) && Enabled(c, s, step) && Descending(s.eventQueue, c.priority)
    requires t in s.eventWaiting && t in Next(c, s, step).eventWaiting
    ensures !step.Broadcasting?
    ensures Before(Next(c, s, step).eventQueue, t) + (if step.Signalling? then 1 else 0)
            <= Before(s.eventQueue, t)
               + (if step.QueueingForEvent? && c.priority(step.t) > c.priority(t) then 1 else 0)
  {
    assert t in s.eventQueue;
    hide InsertByPriority;
    hide RemoveFirst;
    hide UnlockBy;
    match step
    case Unlocking(u) => UnlockLeavesEvents(c, s, u);
    case WaitingForEvent(u) => UnlockLeavesEvents(c, s, u);
    case QueueingForEvent(u, timeout, now) =>
      RoomForNewcomer(s.eventQueue, c.threads, u);
      JoinsByPriority(s.eventQueue, u, c.priority, t);
    case EventTimeout(u, now) => Leaves(s.eventQueue, u, t);
    case _ =>
  }

  /** Bounded waiting for an event: while a thread waits there is no broadcast, and there are no more
      signals than there were threads before it and threads of higher priority that have come since. */
  lemma {:induction false} BoundedEventWaiting(c: Config, initial: nat, s: State, steps: seq<Step>, t: nat)
    requires Inv(c, initial, s) && Descending(s.eventQueue, c.priority)
    requires IsRun(c, s, steps) && StillWaitsForEvent(c, s, steps, t)
    ensures forall i | 0 <= i < |steps| :: !steps[i].Broadcasting?
    ensures SignalsIn(steps) <= Before(s.eventQueue, t) + HigherIn(c, steps, t)
    decreases |steps|
  {
    if steps != [] {
      hide Descending;
      StepKeepsInv(c, initial, s, steps[0]);
      EventOrder(c, s, steps[0]);
      EventStep(c, s, steps[0], t);
      BoundedEventWaiting(c, initial, Next(c, s, steps[0]), steps[1..], t);
    }
  }

  /** A signal wakes one thread, of the highest priority, and changes nothing for the others. */
  lemma SignalWakesOne(c: Config, s: State)
    requires Placed(c, s) && Descending(s.eventQueue, c.priority) && s.eventQueue != []
    ensures var woken := s.eventQueue[0];
            && Next(c, s, Signalling).eventWaiting == s.eventWaiting - {woken}
            && woken in s.eventWaiting && forall t | t in s.eventWaiting :: c.priority(t) <= c.priority(woken)
  {
    assert s.eventQueue[0] in s.eventQueue;
    forall t | t in s.eventWaiting ensures c.priority(t) <= c.priority(s.eventQueue[0]) {
      assert t in s.eventQueue;
      var k :| 0 <= k < |s.eventQueue| && s.eventQueue[k] == t;
    }
  }
}
