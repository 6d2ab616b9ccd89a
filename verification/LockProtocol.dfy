/** All interleavings of the spinlock-protected sections of one lock object. */
module LockProtocol {
  import opened WaitQueue
  import opened LockObject

  datatype Owner = Nobody | Thread(id: nat)

  /** `waiting` and `granted` map threads inside `pok_lockobj_lock` to their deadline (0: none):
      those still queued, and those dequeued by an unlock that have not resumed yet. `eventOwner`
      holds the event spinlock between the unlock and the queueing of `pok_lockobj_eventwait`.
      The counters are history: locks that returned OK, unlocks, unlocks without effect, and
      resources handed to a thread that then returned TIMEOUT. */
  datatype State = State(
    lock: Lock,
    waiting: map<nat, nat>,
    granted: map<nat, nat>,
    eventQueue: seq<nat>,
    eventWaiting: map<nat, nat>,
    eventOwner: Owner,
    holders: set<nat>,
    acquired: nat,
    unlocks: nat,
    absorbed: nat,
    leaked: nat)

  datatype Step =
    | Acquiring(t: nat, timeout: nat, now: nat)
    | Resuming(t: nat, now: nat)
    | Unlocking(t: nat)
    | WaitingForEvent(t: nat)
    | QueueingForEvent(t: nat, timeout: nat, now: nat)
    | Signalling
    | Broadcasting
    | EventTimeout(t: nat, now: nat)

  ghost predicate Free(s: State, t: nat) {
    t !in s.waiting && t !in s.granted && t !in s.eventWaiting && s.eventOwner != Thread(t)
  }

  ghost predicate PastDeadline(deadline: nat, now: nat) {
    deadline != 0 && now >= deadline
  }

  /** A thread inside `pok_lockobj_lock` may resume because it was handed the resource or because
      its timer fired. */
  ghost predicate MayResume(s: State, t: nat, now: nat) {
    t in s.granted || (t in s.waiting && PastDeadline(s.waiting[t], now))
  }

  ghost predicate Enabled(c: Config, s: State, step: Step) {
    match step
    case Acquiring(t, _, _) => t < c.threads && Free(s, t)
    case Resuming(t, now) => MayResume(s, t, now)
    case Unlocking(t) => t < c.threads && Free(s, t)
    case WaitingForEvent(t) => t < c.threads && Free(s, t) && s.eventOwner.Nobody?
    case QueueingForEvent(t, _, _) => s.eventOwner == Thread(t) && t < c.threads
    case Signalling => s.eventOwner.Nobody?
    case Broadcasting => s.eventOwner.Nobody?
    case EventTimeout(t, now) =>
      s.eventOwner.Nobody? && t in s.eventWaiting && PastDeadline(s.eventWaiting[t], now)
  }

  ghost function Deadline(timeout: nat, now: nat): nat {
    if timeout > 0 then timeout + now else 0
  }

  ghost function UnlockBy(c: Config, s: State, t: nat): State {
    var l := Release(c, s.lock);
    var s' := s.(lock := l, holders := s.holders - {t}, unlocks := s.unlocks + 1);
    if HandsOver(s.lock) && s.lock.queue[0] in s.waiting then
      var h := s.lock.queue[0];
      s'.(granted := s.granted[h := s.waiting[h]], waiting := s.waiting - {h})
    else if s.lock.value > 0 && l.value <= s.lock.value then
      s'.(absorbed := s.absorbed + 1 + s.lock.value - l.value)
    else s'
  }

  ghost function Next(c: Config, s: State, step: Step): State {
    match step
    case Acquiring(t, timeout, now) =>
      var l := Acquire(c, s.lock, t);
      if s.lock.value > 0 then
        s.(lock := l, holders := s.holders + {t}, acquired := s.acquired + 1)
      else
        s.(lock := l, waiting := s.waiting[t := Deadline(timeout, now)])
    case Resuming(t, now) =>
      var handed := t in s.granted;
      var deadline := if handed then s.granted[t] else if t in s.waiting then s.waiting[t] else 0;
      var s' := s.(granted := s.granted - {t}, waiting := s.waiting - {t});
      if PastDeadline(deadline, now) then
        s'.(lock := s.lock.(queue := RemoveFirst(s.lock.queue, t)),
            leaked := s.leaked + if handed then 1 else 0)
      else
        s'.(holders := s.holders + {t}, acquired := s.acquired + 1)
    case Unlocking(t) => UnlockBy(c, s, t)
    case WaitingForEvent(t) => UnlockBy(c, s, t).(eventOwner := Thread(t))
    case QueueingForEvent(t, timeout, now) =>
      s.(eventQueue := Enqueue(c, s.eventQueue, t, ByPriority),
         eventWaiting := s.eventWaiting[t := Deadline(timeout, now)],
         eventOwner := Nobody)
    case Signalling =>
      if s.eventQueue == [] then s
      else s.(eventQueue := s.eventQueue[1..], eventWaiting := s.eventWaiting - {s.eventQueue[0]})
    case Broadcasting => s.(eventQueue := [], eventWaiting := map[])
    case EventTimeout(t, now) =>
      s.(eventQueue := RemoveFirst(s.eventQueue, t), eventWaiting := s.eventWaiting - {t})
  }

  /** After `pok_lockobj_create`. */
  ghost function Start(c: Config, initial: nat): State {
    State(Lock(if c.kind == Semaphore then initial else 1, []), map[], map[], [], map[], Nobody, {}, 0, 0, 0, 0)
  }

  ghost predicate QueueOf(c: Config, queue: seq<nat>, threads: map<nat, nat>) {
    && Distinct(queue)
    && (forall i | 0 <= i < |queue| :: queue[i] < c.threads)
    && (forall t :: t in queue <==> t in threads)
  }

  /** Every thread is in at most one place, and each queue lists exactly its waiters. */
  ghost predicate Placed(c: Config, s: State) {
    && QueueOf(c, s.lock.queue, s.waiting)
    && QueueOf(c, s.eventQueue, s.eventWaiting)
    && s.waiting.Keys !! s.granted.Keys
    && s.eventWaiting.Keys !! s.waiting.Keys && s.eventWaiting.Keys !! s.granted.Keys
    && (s.eventOwner.Thread? ==> s.eventOwner.id !in s.waiting.Keys + s.granted.Keys + s.eventWaiting.Keys)
  }

  /** Every resource is accounted for: an unlock that finds a resource available may be absorbed,
      and a hand-over may be lost to a timeout. */
  ghost predicate Accounted(c: Config, initial: nat, s: State) {
    && (s.lock.value > 0 ==> s.lock.queue == [])
    && (c.kind != Semaphore ==> s.lock.value <= 1)
    && s.acquired + |s.granted| + s.lock.value + s.leaked + s.absorbed
       == Start(c, initial).lock.value + s.unlocks
  }

  /** What every step keeps. */
  ghost predicate Inv(c: Config, initial: nat, s: State) {
    Placed(c, s) && Accounted(c, initial, s)
  }

  lemma EnqueueKeepsQueue(c: Config, queue: seq<nat>, threads: map<nat, nat>, t: nat, deadline: nat,
                          discipline: Discipline)
    requires QueueOf(c, queue, threads) && t < c.threads && t !in threads
    ensures |queue| < c.threads
    ensures QueueOf(c, Enqueue(c, queue, t, discipline), threads[t := deadline])
  {
    RoomForNewcomer(queue, c.threads, t);
    InsertDistinct(queue, t, c.priority);
    var after := Enqueue(c, queue, t, discipline);
    assert forall x :: x in after <==> x in queue || x == t;
    forall i | 0 <= i < |after| ensures after[i] < c.threads {
      assert after[i] in after;
    }
  }

  lemma RemoveKeepsQueue(c: Config, queue: seq<nat>, threads: map<nat, nat>, t: nat)
    requires QueueOf(c, queue, threads)
    ensures QueueOf(c, RemoveFirst(queue, t), threads - {t})
  {
    RemoveDistinct(queue, t);
    var after := RemoveFirst(queue, t);
    forall i | 0 <= i < |after| ensures after[i] < c.threads {
      assert after[i] in after;
    }
  }

  lemma DropKeepsQueue(c: Config, queue: seq<nat>, threads: map<nat, nat>)
    requires QueueOf(c, queue, threads) && queue != []
    ensures QueueOf(c, queue[1..], threads - {queue[0]})
  {
    assert queue == [queue[0]] + queue[1..];
  }

  lemma GrantCount(granted: map<nat, nat>, h: nat, deadline: nat)
    ensures h !in granted ==> |granted[h := deadline]| == |granted| + 1
    ensures h in granted ==> |granted - {h}| == |granted| - 1
    ensures h !in granted ==> granted - {h} == granted
  {
    if h in granted {
      assert (granted - {h}).Keys == granted.Keys - {h};
    } else {
      assert granted[h := deadline].Keys == granted.Keys + {h};
    }
  }

  lemma UnlockKeepsPlaces(c: Config, s: State, t: nat)
    requires Placed(c, s) && Free(s, t)
    ensures Placed(c, UnlockBy(c, s, t)) && Free(UnlockBy(c, s, t), t)
  {
    if HandsOver(s.lock) {
      assert s.lock.queue[0] in s.lock.queue;
      DropKeepsQueue(c, s.lock.queue, s.waiting);
    }
  }

  lemma UnlockKeepsAccount(c: Config, initial: nat, s: State, t: nat)
    requires Placed(c, s) && Accounted(c, initial, s)
    ensures Accounted(c, initial, UnlockBy(c, s, t))
  {
    if HandsOver(s.lock) {
      var h := s.lock.queue[0];
      assert h in s.lock.queue;
      GrantCount(s.granted, h, s.waiting[h]);
    }
  }

  lemma UnlockKeepsInv(c: Config, initial: nat, s: State, t: nat)
    requires Inv(c, initial, s) && Free(s, t)
    ensures Inv(c, initial, UnlockBy(c, s, t)) && Free(UnlockBy(c, s, t), t)
  {
    UnlockKeepsPlaces(c, s, t);
    UnlockKeepsAccount(c, initial, s, t);
  }

  lemma AcquireKeepsInv(c: Config, initial: nat, s: State, t: nat, timeout: nat, now: nat)
    requires Inv(c, initial, s) && Free(s, t) && t < c.threads
    ensures Inv(c, initial, Next(c, s, Acquiring(t, timeout, now)))
  {
    if s.lock.value == 0 {
      EnqueueKeepsQueue(c, s.lock.queue, s.waiting, t, Deadline(timeout, now), c.discipline);
    }
  }

  lemma ResumeKeepsPlaces(c: Config, s: State, t: nat, now: nat)
    requires Placed(c, s) && MayResume(s, t, now)
    ensures Placed(c, Next(c, s, Resuming(t, now)))
  {
    if t in s.granted {
      assert s.waiting - {t} == s.waiting;
      RemoveAbsent(s.lock.queue, t);
    } else {
      RemoveKeepsQueue(c, s.lock.queue, s.waiting, t);
    }
  }

  lemma RemoveFromEmpty(t: nat)
    ensures RemoveFirst([], t) == []
  {
  }

  /** A resumption by a grant returns OK or loses the grant; one by timeout changes nothing but
      the queue. */
  lemma ResumeEffect(c: Config, s: State, t: nat, now: nat)
    requires MayResume(s, t, now) && s.waiting.Keys !! s.granted.Keys
    ensures var e := Next(c, s, Resuming(t, now));
            && e.lock.value == s.lock.value && e.unlocks == s.unlocks && e.absorbed == s.absorbed
            && (s.lock.queue == [] ==> e.lock.queue == [])
            && e.acquired + e.leaked + |e.granted| == s.acquired + s.leaked + |s.granted|
            && e.leaked >= s.leaked
            && e.holders == (if e.acquired > s.acquired then s.holders + {t} else s.holders)
            && s.acquired <= e.acquired <= s.acquired + (if t in s.granted then 1 else 0)
  {
    hide RemoveFirst;
    RemoveFromEmpty(t);
    GrantCount(s.granted, t, 0);
  }

  lemma ResumeKeepsAccount(c: Config, initial: nat, s: State, t: nat, now: nat)
    requires Accounted(c, initial, s) && MayResume(s, t, now)
    requires s.waiting.Keys !! s.granted.Keys
    ensures Accounted(c, initial, Next(c, s, Resuming(t, now)))
  {
    hide Next;
    ResumeEffect(c, s, t, now);
  }

  lemma ResumeKeepsInv(c: Config, initial: nat, s: State, t: nat, now: nat)
    requires Inv(c, initial, s) && MayResume(s, t, now)
    ensures Inv(c, initial, Next(c, s, Resuming(t, now)))
  {
    ResumeKeepsPlaces(c, s, t, now);
    ResumeKeepsAccount(c, initial, s, t, now);
  }

  lemma EventKeepsInv(c: Config, initial: nat, s: State, step: Step)
    requires Inv(c, initial, s) && Enabled(c, s, step)
    requires step.QueueingForEvent? || step.Signalling? || step.Broadcasting? || step.EventTimeout?
    ensures Inv(c, initial, Next(c, s, step))
  {
    match step
    case QueueingForEvent(t, timeout, now) =>
      EnqueueKeepsQueue(c, s.eventQueue, s.eventWaiting, t, Deadline(timeout, now), ByPriority);
    case Signalling =>
      if s.eventQueue != [] {
        DropKeepsQueue(c, s.eventQueue, s.eventWaiting);
      }
    case Broadcasting =>
    case EventTimeout(t, now) =>
      RemoveKeepsQueue(c, s.eventQueue, s.eventWaiting, t);
  }

  lemma StepKeepsInv(c: Config, initial: nat, s: State, step: Step)
    requires Inv(c, initial, s) && Enabled(c, s, step)
    ensures Inv(c, initial, Next(c, s, step))
  {
    match step
    case Acquiring(t, timeout, now) => AcquireKeepsInv(c, initial, s, t, timeout, now);
    case Resuming(t, now) => ResumeKeepsInv(c, initial, s, t, now);
    case Unlocking(t) => UnlockKeepsInv(c, initial, s, t);
    case WaitingForEvent(t) => UnlockKeepsInv(c, initial, s, t);
    case _ => EventKeepsInv(c, initial, s, step);
  }

  ghost predicate IsRun(c: Config, s: State, steps: seq<Step>)
    decreases |steps|
  {
    steps == [] || (Enabled(c, s, steps[0]) && IsRun(c, Next(c, s, steps[0]), steps[1..]))
  }

  ghost function Run(c: Config, s: State, steps: seq<Step>): State
    decreases |steps|
  {
    if steps == [] then s else Run(c, Next(c, s, steps[0]), steps[1..])
  }

  /** Lock safety over every interleaving: nobody waits while a resource is available, no queue
      ever overflows, and locks that succeeded, resources in flight and resources left never
      exceed what was there initially plus what was unlocked. */
  lemma {:induction false} LockSafety(c: Config, initial: nat, s: State, steps: seq<Step>)
    requires Inv(c, initial, s) && IsRun(c, s, steps)
    ensures var e := Run(c, s, steps);
            && Inv(c, initial, e)
            && (e.lock.value > 0 ==> e.lock.queue == [])
            && e.acquired + |e.granted| + e.lock.value <= Start(c, initial).lock.value + e.unlocks
    decreases |steps|
  {
    if steps != [] {
      StepKeepsInv(c, initial, s, steps[0]);
      LockSafety(c, initial, Next(c, s, steps[0]), steps[1..]);
    }
  }

  lemma StartIsSafe(c: Config, initial: nat)
    ensures Inv(c, initial, Start(c, initial))
  {
  }

  predicate Unlocks(step: Step) {
    step.Unlocking? || step.WaitingForEvent?
  }

  function UnlocksIn(steps: seq<Step>): nat {
    if steps == [] then 0 else (if Unlocks(steps[0]) then 1 else 0) + UnlocksIn(steps[1..])
  }

  /** An unlock that cannot raise the value: of a mutex or event that is available, or of a semaphore at
      its maximum or above. */
  predicate Wasted(c: Config, s: State, step: Step) {
    Unlocks(step) && s.lock.value >= 1 && (c.kind == Semaphore ==> s.lock.value >= c.max)
  }

  ghost function WastedIn(c: Config, s: State, steps: seq<Step>): nat
    decreases |steps|
  {
    if steps == [] then 0
    else (if Wasted(c, s, steps[0]) then 1 else 0) + WastedIn(c, Next(c, s, steps[0]), steps[1..])
  }

  lemma UnlockCounts(c: Config, s: State, t: nat)
    requires c.kind != Semaphore ==> s.lock.value <= 1
    ensures var e := UnlockBy(c, s, t);
            && e.unlocks == s.unlocks + 1
            && e.absorbed == s.absorbed + if Wasted(c, s, Unlocking(t)) then 1 else 0
  {
  }

  lemma {:induction false} CountsOf(c: Config, initial: nat, s: State, steps: seq<Step>)
    requires Inv(c, initial, s) && IsRun(c, s, steps)
    ensures var e := Run(c, s, steps);
            && Inv(c, initial, e)
            && e.unlocks == s.unlocks + UnlocksIn(steps)
            && e.absorbed == s.absorbed + WastedIn(c, s, steps)
    decreases |steps|
  {
    if steps != [] {
      StepKeepsInv(c, initial, s, steps[0]);
      StepCounts(c, s, steps[0]);
      CountsOf(c, initial, Next(c, s, steps[0]), steps[1..]);
    }
  }

  lemma StepCounts(c: Config, s: State, step: Step)
    requires c.kind != Semaphore ==> s.lock.value <= 1
    ensures var e := Next(c, s, step);
            && e.unlocks == s.unlocks + (if Unlocks(step) then 1 else 0)
            && e.absorbed == s.absorbed + (if Wasted(c, s, step) then 1 else 0)
  {
    hide UnlockBy;
    match step
    case Unlocking(t) => UnlockCounts(c, s, t);
    case WaitingForEvent(t) => UnlockCounts(c, s, t);
    case _ =>
  }

  /** The exact account, over every interleaving from creation: what has been acquired, is in flight, is
      left, or was lost to a timeout is what there was at first and one for each unlock, but for those
      of an available mutex or event or of a semaphore at its maximum. */
  lemma ExactAccount(c: Config, initial: nat, steps: seq<Step>)
    requires IsRun(c, Start(c, initial), steps)
    ensures var s := Start(c, initial);
            var e := Run(c, s, steps);
            e.acquired + |e.granted| + e.lock.value + e.leaked + WastedIn(c, s, steps)
            == s.lock.value + UnlocksIn(steps)
  {
    StartIsSafe(c, initial);
    CountsOf(c, initial, Start(c, initial), steps);
  }

  /** One unlock of an object for which nobody waits: a mutex or event becomes available, a semaphore
      gains one below its maximum. */
  lemma UnlockRaises(c: Config, s: State, t: nat)
    requires s.lock.queue == []
    ensures UnlockBy(c, s, t).lock.queue == []
    ensures c.kind != Semaphore ==> UnlockBy(c, s, t).lock.value == 1
    ensures c.kind == Semaphore ==>
              UnlockBy(c, s, t).lock.value - s.lock.value == if 0 < s.lock.value && c.max <= s.lock.value then 0 else 1
  {
  }

  /** Unlocks come from holders only. */
  ghost predicate Disciplined(s: State, step: Step) {
    match step
    case Unlocking(t) => t in s.holders
    case WaitingForEvent(t) => t in s.holders
    case _ => true
  }

  ghost predicate IsDisciplinedRun(c: Config, s: State, steps: seq<Step>)
    decreases |steps|
  {
    steps == []
    || (Enabled(c, s, steps[0]) && Disciplined(s, steps[0])
        && IsDisciplinedRun(c, Next(c, s, steps[0]), steps[1..]))
  }

  /** The one resource of a mutex or event is held, in flight, available, or lost. */
  ghost predicate Exclusive(s: State) {
    |s.holders| + |s.granted| + s.lock.value + s.leaked == 1
  }

  lemma OneHolder(holders: set<nat>, t: nat)
    ensures |holders| == 0 ==> |holders + {t}| == 1
    ensures t in holders && |holders| <= 1 ==> |holders| == 1 && holders - {t} == {}
    ensures t !in holders ==> |holders + {t}| == |holders| + 1
  {
    if t in holders {
      assert |holders - {t}| == |holders| - 1;
    }
  }

  lemma DisciplinedUnlock(c: Config, s: State, t: nat)
    requires c.kind != Semaphore && Placed(c, s) && Exclusive(s) && t in s.holders
    ensures Exclusive(UnlockBy(c, s, t)) && UnlockBy(c, s, t).leaked == s.leaked
  {
    OneHolder(s.holders, t);
    if HandsOver(s.lock) {
      var h := s.lock.queue[0];
      assert h in s.lock.queue;
      GrantCount(s.granted, h, s.waiting[h]);
    }
  }

  lemma ResumeKeepsExclusive(c: Config, s: State, t: nat, now: nat)
    requires Placed(c, s) && Exclusive(s) && MayResume(s, t, now)
    ensures Exclusive(Next(c, s, Resuming(t, now)))
    ensures Next(c, s, Resuming(t, now)).leaked >= s.leaked
  {
    hide Next;
    ResumeEffect(c, s, t, now);
    OneHolder(s.holders, t);
    GrantCount(s.granted, t, 0);
  }

  lemma AcquireKeepsExclusive(c: Config, s: State, t: nat, timeout: nat, now: nat)
    requires Exclusive(s)
    ensures Exclusive(Next(c, s, Acquiring(t, timeout, now)))
    ensures Next(c, s, Acquiring(t, timeout, now)).leaked == s.leaked
  {
    OneHolder(s.holders, t);
  }

  lemma StepKeepsExclusive(c: Config, s: State, step: Step)
    requires c.kind != Semaphore && Placed(c, s) && Exclusive(s)
    requires Enabled(c, s, step) && Disciplined(s, step)
    ensures Exclusive(Next(c, s, step)) && Next(c, s, step).leaked >= s.leaked
  {
    hide UnlockBy;
    match step
    case Acquiring(t, timeout, now) => AcquireKeepsExclusive(c, s, t, timeout, now);
    case Resuming(t, now) => ResumeKeepsExclusive(c, s, t, now);
    case Unlocking(t) => DisciplinedUnlock(c, s, t);
    case WaitingForEvent(t) => DisciplinedUnlock(c, s, t);
    case _ =>
  }

  /** Mutual exclusion over every interleaving. Once a hand-over has been lost to a timeout
      nobody ever holds the object again: the resource is not given back. */
  lemma {:induction false} MutualExclusion(c: Config, initial: nat, s: State, steps: seq<Step>)
    requires c.kind != Semaphore && Inv(c, initial, s) && Exclusive(s)
    requires IsDisciplinedRun(c, s, steps)
    ensures var e := Run(c, s, steps);
            && |e.holders| <= 1
            && |e.holders| + |e.granted| + e.lock.value == 1 - e.leaked
            && e.leaked >= s.leaked
    decreases |steps|
  {
    if steps != [] {
      StepKeepsInv(c, initial, s, steps[0]);
      StepKeepsExclusive(c, s, steps[0]);
      MutualExclusion(c, initial, Next(c, s, steps[0]), steps[1..]);
    }
  }

  lemma ResumesUnasked(c: Config, s: State, t: nat, now: nat)
    requires t in s.waiting && t !in s.granted && !PastDeadline(s.waiting[t], now)
    ensures var e := Next(c, s, Resuming(t, now));
            && e.holders == s.holders + {t} && e.granted == s.granted && e.lock == s.lock && e.leaked == s.leaked
  {
    GrantCount(s.granted, t, 0);
  }

  /** `pok_lockobj_lock` does not ask on resumption whether it was handed the resource: exclusion
      survives a resumption exactly when the thread was granted the resource or timed out. */
  lemma ResumptionIsSafeIff(c: Config, s: State, t: nat, now: nat)
    requires Placed(c, s) && Exclusive(s) && t !in s.holders
    requires t in s.waiting || t in s.granted
    ensures Exclusive(Next(c, s, Resuming(t, now))) <==> MayResume(s, t, now)
  {
    hide Next;
    if MayResume(s, t, now) {
      ResumeKeepsExclusive(c, s, t, now);
    } else {
      ResumesUnasked(c, s, t, now);
      OneHolder(s.holders, t);
    }
  }

  /** Two holders: thread 1 is made runnable while it still waits for thread 0. */
  lemma ResumptionWithoutGrant(c: Config)
    requires c.kind == Mutex && c.threads >= 2
    ensures var s := Run(c, Start(c, 0), [Acquiring(0, 0, 0), Acquiring(1, 0, 0)]);
            && IsDisciplinedRun(c, Start(c, 0), [Acquiring(0, 0, 0), Acquiring(1, 0, 0)])
            && !MayResume(s, 1, 0)
            && Next(c, s, Resuming(1, 0)).holders == {0, 1}
  {
    var steps := [Acquiring(0, 0, 0), Acquiring(1, 0, 0)];
    var s1 := Next(c, Start(c, 0), steps[0]);
    var s2 := Next(c, s1, steps[1]);
    assert steps[1..] == [Acquiring(1, 0, 0)] && steps[1..][1..] == [];
    assert Run(c, s1, steps[1..]) == Run(c, s2, []);
  }

  /** Nobody inside `pok_lockobj_lock` has a deadline. */
  ghost predicate Untimed(s: State) {
    (forall t | t in s.waiting :: s.waiting[t] == 0) && (forall t | t in s.granted :: s.granted[t] == 0)
  }

  ghost predicate TimeoutsIn(steps: seq<Step>, allowed: iset<nat>) {
    forall i | 0 <= i < |steps| && steps[i].Acquiring? :: steps[i].timeout in allowed
  }

  ghost predicate OnlyZero(allowed: iset<nat>) {
    forall d | d in allowed :: d == 0
  }

  lemma UntimedUnlock(c: Config, s: State, t: nat)
    requires Untimed(s)
    ensures Untimed(UnlockBy(c, s, t)) && UnlockBy(c, s, t).leaked == s.leaked
  {
  }

  lemma UntimedStep(c: Config, s: State, step: Step)
    requires Untimed(s) && (step.Acquiring? ==> step.timeout == 0)
    ensures Untimed(Next(c, s, step)) && Next(c, s, step).leaked == s.leaked
  {
    hide UnlockBy;
    match step
    case Unlocking(t) => UntimedUnlock(c, s, t);
    case WaitingForEvent(t) => UntimedUnlock(c, s, t);
    case _ =>
  }

  lemma {:induction false} UntimedRun(c: Config, s: State, steps: seq<Step>, allowed: iset<nat>)
    requires Untimed(s) && TimeoutsIn(steps, allowed) && OnlyZero(allowed)
    ensures Run(c, s, steps).leaked == s.leaked
    decreases |steps|
  {
    if steps != [] {
      UntimedStep(c, s, steps[0]);
      UntimedRun(c, Next(c, s, steps[0]), steps[1..], allowed);
    }
  }

  /** A thread that is alone cannot unlock while it waits, so it is never handed anything. */
  lemma {:induction false} LoneRun(c: Config, initial: nat, s: State, steps: seq<Step>)
    requires c.threads < 2 && Inv(c, initial, s) && s.granted == map[] && IsRun(c, s, steps)
    ensures Run(c, s, steps).leaked == s.leaked
    decreases |steps|
  {
    if steps != [] {
      StepKeepsInv(c, initial, s, steps[0]);
      LoneStep(c, s, steps[0]);
      LoneRun(c, initial, Next(c, s, steps[0]), steps[1..]);
    }
  }

  lemma LoneStep(c: Config, s: State, step: Step)
    requires c.threads < 2 && Placed(c, s) && s.granted == map[] && Enabled(c, s, step)
    ensures Next(c, s, step).granted == map[] && Next(c, s, step).leaked == s.leaked
  {
    assert forall i | 0 <= i < |s.lock.queue| :: s.lock.queue[i] in s.lock.queue;
  }

  lemma {:induction false} DisciplinedIsRun(c: Config, s: State, steps: seq<Step>)
    requires IsDisciplinedRun(c, s, steps)
    ensures IsRun(c, s, steps)
    decreases |steps|
  {
    if steps != [] {
      DisciplinedIsRun(c, Next(c, s, steps[0]), steps[1..]);
    }
  }

  /** Thread 0 takes what there is, thread 1 waits, and times out after thread 0 has handed it the
      resource. */
  ghost function LosingSteps(value: nat, d: nat): seq<Step> {
    if value == 0 then [Acquiring(1, d, 0), Unlocking(0), Resuming(1, d)]
    else [Acquiring(0, d, 0)] + LosingSteps(value - 1, d)
  }

  ghost predicate Idle(s: State) {
    && s.lock.queue == [] && s.waiting == map[] && s.granted == map[] && s.eventWaiting == map[]
    && s.eventOwner.Nobody?
  }

  lemma LosesLast(c: Config, s: State, d: nat)
    requires c.threads >= 2 && d > 0 && Idle(s) && s.lock.value == 0
    ensures IsRun(c, s, LosingSteps(0, d)) && Run(c, s, LosingSteps(0, d)).leaked == s.leaked + 1
    ensures 0 in s.holders ==> IsDisciplinedRun(c, s, LosingSteps(0, d))
  {
    var steps := LosingSteps(0, d);
    var s1 := Next(c, s, steps[0]);
    var s2 := Next(c, s1, steps[1]);
    assert s1.lock.queue == [1] && s1.waiting == map[1 := d];
    assert s2.granted == map[1 := d];
    assert steps[1..] == [Unlocking(0), Resuming(1, d)];
    assert steps[1..][1..] == [Resuming(1, d)] && steps[1..][1..][1..] == [];
    assert IsRun(c, s2, [Resuming(1, d)]) && IsDisciplinedRun(c, s2, [Resuming(1, d)]);
    assert IsRun(c, s1, steps[1..]);
    assert 0 in s.holders ==> IsDisciplinedRun(c, s1, steps[1..]);
    assert Run(c, s2, [Resuming(1, d)]) == Next(c, s2, Resuming(1, d));
  }

  lemma {:induction false} Loses(c: Config, s: State, d: nat)
    requires c.threads >= 2 && d > 0 && Idle(s)
    ensures IsRun(c, s, LosingSteps(s.lock.value, d))
    ensures Run(c, s, LosingSteps(s.lock.value, d)).leaked == s.leaked + 1
    ensures s.lock.value > 0 || 0 in s.holders ==> IsDisciplinedRun(c, s, LosingSteps(s.lock.value, d))
    decreases s.lock.value
  {
    if s.lock.value == 0 {
      LosesLast(c, s, d);
    } else {
      var steps := LosingSteps(s.lock.value, d);
      assert steps[1..] == LosingSteps(s.lock.value - 1, d);
      Loses(c, Next(c, s, steps[0]), d);
    }
  }

  lemma {:induction false} LosingTimeouts(value: nat, d: nat, allowed: iset<nat>)
    requires d in allowed
    ensures TimeoutsIn(LosingSteps(value, d), allowed)
  {
    if value > 0 {
      LosingTimeouts(value - 1, d, allowed);
    }
  }

  /** No run whose timeouts are allowed loses a hand-over. */
  ghost predicate NeverLoses(c: Config, initial: nat, allowed: iset<nat>) {
    forall steps | IsRun(c, Start(c, initial), steps) && TimeoutsIn(steps, allowed) ::
      Run(c, Start(c, initial), steps).leaked == 0
  }

  ghost predicate NeverLosesDisciplined(c: Config, initial: nat, allowed: iset<nat>) {
    forall steps | IsDisciplinedRun(c, Start(c, initial), steps) && TimeoutsIn(steps, allowed) ::
      Run(c, Start(c, initial), steps).leaked == 0
  }

  lemma WithoutTimeouts(c: Config, initial: nat, allowed: iset<nat>)
    requires c.threads < 2 || OnlyZero(allowed)
    ensures NeverLoses(c, initial, allowed) && NeverLosesDisciplined(c, initial, allowed)
  {
    var s := Start(c, initial);
    forall steps | IsRun(c, s, steps) && TimeoutsIn(steps, allowed) ensures Run(c, s, steps).leaked == 0 {
      if c.threads < 2 {
        LoneRun(c, initial, s, steps);
      } else {
        UntimedRun(c, s, steps, allowed);
      }
    }
    forall steps | IsDisciplinedRun(c, s, steps) ensures IsRun(c, s, steps) {
      DisciplinedIsRun(c, s, steps);
    }
  }

  lemma WithTimeout(c: Config, initial: nat, allowed: iset<nat>, d: nat)
    requires c.threads >= 2 && d in allowed && d > 0
    ensures !NeverLoses(c, initial, allowed)
    ensures Start(c, initial).lock.value > 0 ==> !NeverLosesDisciplined(c, initial, allowed)
  {
    var s := Start(c, initial);
    Loses(c, s, d);
    LosingTimeouts(s.lock.value, d, allowed);
  }

  /** A resource that is handed over is never lost if and only if there is nobody to hand it to, or
      nobody locks with a timeout: `pok_lockobj_lock` returns TIMEOUT once the deadline has passed,
      although the thread has been handed the resource. It makes no difference that only holders
      unlock, except for a semaphore that starts at 0, which then has no holders. */
  lemma LostHandOverIff(c: Config, initial: nat, allowed: iset<nat>)
    ensures NeverLoses(c, initial, allowed) <==> c.threads < 2 || OnlyZero(allowed)
    ensures Start(c, initial).lock.value > 0 ==>
              (NeverLosesDisciplined(c, initial, allowed) <==> c.threads < 2 || OnlyZero(allowed))
  {
    hide NeverLoses;
    hide NeverLosesDisciplined;
    if c.threads < 2 || OnlyZero(allowed) {
      WithoutTimeouts(c, initial, allowed);
    } else {
      var d :| d in allowed && d != 0;
      WithTimeout(c, initial, allowed, d);
    }
  }

  lemma {:induction false} SemaphoreStaysBelowMax(c: Config, s: State, steps: seq<Step>)
    requires c.kind == Semaphore && 1 <= c.max && s.lock.value <= c.max
    ensures Run(c, s, steps).lock.value <= c.max
    decreases |steps|
  {
    if steps != [] {
      SemaphoreStaysBelowMax(c, Next(c, s, steps[0]), steps[1..]);
    }
  }

  /** The value of a semaphore respects its maximum in every run exactly when the initial value
      does and the maximum is not zero: an unlock of an exhausted semaphore sets the value to 1
      whatever the maximum. */
  lemma SemaphoreBound(c: Config, initial: nat)
    requires c.kind == Semaphore && c.threads >= 1
    ensures (forall steps | IsRun(c, Start(c, initial), steps) ::
               Run(c, Start(c, initial), steps).lock.value <= c.max)
            <==> initial <= c.max && 1 <= c.max
  {
    var s := Start(c, initial);
    if initial <= c.max && 1 <= c.max {
      forall steps | IsRun(c, s, steps) ensures Run(c, s, steps).lock.value <= c.max {
        SemaphoreStaysBelowMax(c, s, steps);
      }
    } else if initial > c.max {
      assert IsRun(c, s, []) && Run(c, s, []).lock.value > c.max;
    } else {
      var steps := [Unlocking(0)];
      assert steps[1..] == [] && Run(c, s, steps) == Run(c, Next(c, s, steps[0]), []);
      assert IsRun(c, s, steps) && Run(c, s, steps).lock.value > c.max;
    }
  }
}
