/** Mutexes, semaphores and events: kernel/core/lockobj.c:69-108 and 158-377. Every section
    under the spinlock of the object is one step; `LockProtocol` interleaves them. */
module LockObject {
  import opened WaitQueue
  import opened LockFifo

  datatype Kind = Mutex | Semaphore | Event
  datatype Discipline = FirstInFirstOut | ByPriority

  /** What creation fixes. `threads` is POK_CONFIG_NB_THREADS, the capacity of every queue;
      priorities do not change while threads are queued. */
  datatype Config = Config(threads: nat, kind: Kind, discipline: Discipline, max: nat, priority: nat -> nat)

  /** `current_value` and the threads waiting for it. */
  datatype Lock = Lock(value: nat, queue: seq<nat>)

  function Enqueue(c: Config, queue: seq<nat>, t: nat, discipline: Discipline): seq<nat> {
    match discipline
    case FirstInFirstOut => if |queue| == c.threads then queue else queue + [t]
    case ByPriority => if |queue| == c.threads then [t] else InsertByPriority(queue, t, c.priority)
  }

  /** First section of `pok_lockobj_lock`. */
  function Acquire(c: Config, l: Lock, t: nat): Lock {
    if l.value > 0 then l.(value := l.value - 1)
    else l.(queue := Enqueue(c, l.queue, t, c.discipline))
  }

  /** `pok_lockobj_unlock`: the three scenarios of the source. */
  function Release(c: Config, l: Lock): Lock {
    if l.value > 0 then
      l.(value := if c.kind != Semaphore then 1 else if l.value < c.max then l.value + 1 else l.value)
    else if l.queue == [] then l.(value := 1)
    else l.(queue := l.queue[1..])
  }

  /** The thread an unlock hands the resource to. */
  predicate HandsOver(l: Lock) {
    l.value == 0 && l.queue != []
  }

  class LockObj {
    const threads: nat
    const kind: Kind
    const discipline: Discipline
    const max: nat
    var currentValue: nat
    const fifo: Fifo
    const eventFifo: Fifo

    ghost predicate Valid()
      reads this, fifo, eventFifo
    {
      && fifo.Valid() && fifo.buffer.Length == threads
      && eventFifo.Valid() && eventFifo.buffer.Length == threads
      && fifo != eventFifo && fifo.buffer != eventFifo.buffer
    }

    ghost function Value(): Lock
      requires Valid()
      reads this, fifo, fifo.buffer, eventFifo
    {
      Lock(currentValue, fifo.Contents())
    }

    ghost function Settings(priority: nat -> nat): Config {
      Config(threads, kind, discipline, max, priority)
    }

    /** `pok_lockobj_create`: only semaphores take their initial value from the attributes, and
        events always queue by priority. */
    constructor (threads: nat, kind: Kind, discipline: Discipline, initial: nat, max: nat)
      requires threads > 0
      ensures Valid() && this.threads == threads && this.kind == kind && this.max == max
      ensures this.discipline == if kind == Event then ByPriority else discipline
      ensures Value() == Lock(if kind == Semaphore then initial else 1, [])
      ensures eventFifo.Contents() == []
      ensures fresh(fifo) && fresh(fifo.buffer) && fresh(eventFifo) && fresh(eventFifo.buffer)
    {
      this.threads, this.kind, this.max := threads, kind, max;
      this.discipline := if kind == Event then ByPriority else discipline;
      currentValue := if kind == Semaphore then initial else 1;
      fifo := new Fifo(threads);
      eventFifo := new Fifo(threads);
    }

    /** Up to the reschedule: `acquired` when the short path was taken. */
    method LockSection(t: nat, priority: nat -> nat) returns (acquired: bool)
      requires Valid()
      modifies this, fifo, fifo.buffer
      ensures Valid() && acquired == (old(Value()).value > 0)
      ensures Value() == Acquire(Settings(priority), old(Value()), t)
    {
      if currentValue > 0 {
        currentValue := currentValue - 1;
        return true;
      }
      match discipline {
        case FirstInFirstOut =>
          var _ := fifo.EnqueueLast(t);
        case ByPriority =>
          fifo.EnqueueByPriority(t, priority);
      }
      acquired := false;
    }

    /** After the reschedule: a thread that resumes past its deadline leaves the queue. */
    method ResumeSection(t: nat, deadline: nat, now: nat) returns (timedOut: bool)
      requires Valid()
      modifies fifo, fifo.buffer
      ensures Valid() && timedOut == (deadline != 0 && now >= deadline)
      ensures Value() == if timedOut then old(Value()).(queue := RemoveFirst(old(Value()).queue, t))
                         else old(Value())
    {
      if deadline != 0 && now >= deadline {
        var _ := fifo.RemoveThread(t);
        return true;
      }
      timedOut := false;
    }

    /** `unblocked` is the thread made runnable, if any. */
    method UnlockSection(priority: nat -> nat) returns (handsOver: bool, unblocked: nat)
      requires Valid()
      modifies this, fifo
      ensures Valid() && handsOver == HandsOver(old(Value()))
      ensures handsOver ==> unblocked == old(Value()).queue[0]
      ensures Value() == Release(Settings(priority), old(Value()))
      ensures handsOver <==> old(currentValue) == 0 && old(fifo.Contents()) != []
      ensures handsOver ==> [unblocked] + fifo.Contents() == old(fifo.Contents()) && currentValue == 0
      ensures !handsOver ==> fifo.Contents() == old(fifo.Contents())
      ensures !handsOver && kind == Semaphore ==>
                currentValue == if 0 < old(currentValue) && max <= old(currentValue) then old(currentValue)
                                else old(currentValue) + 1
      ensures !handsOver && kind != Semaphore ==> currentValue == 1
    {
      handsOver, unblocked := false, 0;
      if currentValue > 0 {
        if kind == Semaphore {
          if currentValue < max {
            currentValue := currentValue + 1;
          }
        } else {
          currentValue := 1;
        }
        return;
      }
      if fifo.isEmpty {
        currentValue := 1;
        return;
      }
      unblocked := fifo.GetHead();
      var _ := fifo.Dequeue();
      handsOver := true;
    }

    /** The part of `pok_lockobj_eventwait` between the unlock and the reschedule. */
    method QueueForEvent(t: nat, priority: nat -> nat)
      requires Valid()
      modifies eventFifo, eventFifo.buffer
      ensures Valid() && Value() == old(Value())
      ensures eventFifo.Contents()
              == Enqueue(Settings(priority), old(eventFifo.Contents()), t, ByPriority)
    {
      eventFifo.EnqueueByPriority(t, priority);
    }

    /** `pok_lockobj_eventsignal`: wakes the first waiter, if there is one. */
    method Signal() returns (found: bool, woken: nat)
      requires Valid()
      modifies eventFifo
      ensures Valid() && Value() == old(Value())
      ensures found == (old(eventFifo.Contents()) != [])
      ensures found ==> [woken] + eventFifo.Contents() == old(eventFifo.Contents())
      ensures !found ==> eventFifo.Contents() == []
    {
      if eventFifo.isEmpty {
        return false, 0;
      }
      woken := eventFifo.GetHead();
      var _ := eventFifo.Dequeue();
      found := true;
    }

    /** `pok_lockobj_eventbroadcast` drains the event queue in order. */
    method Broadcast() returns (woken: seq<nat>)
      requires Valid()
      modifies eventFifo
      ensures Valid() && Value() == old(Value())
      ensures woken == old(eventFifo.Contents()) && eventFifo.Contents() == []
    {
      woken := Drain(eventFifo);
    }
  }

  /** The loop of `pok_lockobj_eventbroadcast`. */
  method Drain(queue: Fifo) returns (woken: seq<nat>)
    requires queue.Valid()
    modifies queue
    ensures queue.Valid()
    ensures woken == old(queue.Contents()) && queue.Contents() == []
  {
    hide *;
    woken := [];
    while !queue.isEmpty
      invariant queue.Valid()
      invariant woken + queue.Contents() == old(queue.Contents())
      modifies queue
      decreases |queue.Contents()|
    {
      var t := queue.GetHead();
      woken := woken + [t];
      var _ := queue.Dequeue();
    }
  }
}
