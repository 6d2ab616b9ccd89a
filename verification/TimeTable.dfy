/** The cyclic time table of partitions: `pok_sched_init`, `pok_elect_partition` and
    `pok_sched_part_global_timeslice`, kernel/core/sched.c, lines 163-194, 208-253 and 1347-1352,
    with more than one partition and the default flushing policy. */
module TimeTable {
  import opened PowersOfTwo

  datatype Table = Table(slots: seq<nat>, allocation: seq<nat>, majorFrame: nat)

  /** The scheduler's variables. `flushes` counts the calls of `pok_port_flushall`. */
  datatype Clock = Clock(slot: nat, nextDeadline: nat, nextMajorFrame: nat, partition: nat, flushes: nat)

  /** The beginning of slot `k`, from the beginning of the frame. */
  function Begin(slots: seq<nat>, k: nat): nat
    requires k <= |slots|
  {
    if k == 0 then 0 else Begin(slots, k - 1) + slots[k - 1]
  }

  /** The configuration that `pok_sched_init` accepts, every slot lasting at least one tick. */
  ghost predicate Sound(t: Table) {
    && |t.slots| >= 1 && |t.allocation| == |t.slots|
    && (forall k | 0 <= k < |t.slots| :: t.slots[k] >= 1)
    && t.majorFrame == Begin(t.slots, |t.slots|)
  }

  /** The slot that contains an offset. */
  function SlotAt(slots: seq<nat>, offset: nat, k: nat): (s: nat)
    requires k <= |slots| && offset < Begin(slots, k)
    ensures s < k && Begin(slots, s) <= offset < Begin(slots, s + 1)
  {
    if offset >= Begin(slots, k - 1) then k - 1 else SlotAt(slots, offset, k - 1)
  }

  lemma {:induction false} BeginGrows(slots: seq<nat>, i: nat, k: nat)
    requires i < k <= |slots| && forall k | 0 <= k < |slots| :: slots[k] >= 1
    ensures Begin(slots, i) + slots[i] <= Begin(slots, k)
  {
    if i + 1 < k {
      BeginGrows(slots, i, k - 1);
    }
  }

  /** The state just after an election at time `now`, in frame `flushes`, is what the table says. */
  ghost predicate Conforms(t: Table, c: Clock, now: nat)
    requires Sound(t)
  {
    var frame := c.flushes * t.majorFrame;
    && c.slot < |t.slots| && c.partition == t.allocation[c.slot]
    && c.nextDeadline == frame + Begin(t.slots, c.slot + 1)
    && c.nextMajorFrame == frame + t.majorFrame
    && frame + Begin(t.slots, c.slot) <= now < c.nextDeadline
  }

  /** One election of a partition at time `now`. */
  function Elect(t: Table, c: Clock, now: nat): Clock
    requires |t.slots| == |t.allocation| >= 1
  {
    if c.nextDeadline > now then c else
    var flush := c.nextMajorFrame <= now;
    var slot := (c.slot + 1) % |t.slots|;
    Clock(slot, c.nextDeadline + t.slots[slot],
          if flush then c.nextMajorFrame + t.majorFrame else c.nextMajorFrame,
          t.allocation[slot],
          if flush then c.flushes + 1 else c.flushes)
  }

  function Start(t: Table): Clock
    requires |t.slots| == |t.allocation| >= 1
  {
    Clock(0, t.slots[0], t.majorFrame, t.allocation[0], 0)
  }

  lemma NextSlot(slot: nat, n: nat)
    requires slot < n
    ensures (slot + 1) % n == if slot + 1 < n then slot + 1 else 0
  {
  }

  /** From a state that conforms, the next election conforms again if and only if it comes before the
      end of the next slot. */
  lemma ConformsIff(t: Table, c: Clock, now: nat, later: nat)
    requires Sound(t) && Conforms(t, c, now) && now <= later
    ensures var next := (c.slot + 1) % |t.slots|;
            Conforms(t, Elect(t, c, later), later) <==> later < c.nextDeadline + t.slots[next]
  {
    var n := |t.slots|;
    NextSlot(c.slot, n);
    assert (c.flushes + 1) * t.majorFrame == c.flushes * t.majorFrame + t.majorFrame;
    if c.slot + 1 < n {
      BeginGrows(t.slots, c.slot + 1, n);
    } else {
      BeginGrows(t.slots, 0, n);
    }
  }

  lemma {:induction false} BeginIsMonotone(slots: seq<nat>, i: nat, k: nat)
    requires i <= k <= |slots|
    ensures Begin(slots, i) <= Begin(slots, k)
  {
    if i < k {
      BeginIsMonotone(slots, i, k - 1);
    }
  }

  lemma {:induction false} SlotIs(slots: seq<nat>, offset: nat, k: nat, s: nat)
    requires s < k <= |slots| && Begin(slots, s) <= offset < Begin(slots, s + 1)
    requires offset < Begin(slots, k)
    ensures SlotAt(slots, offset, k) == s
  {
    if s < k - 1 {
      BeginIsMonotone(slots, s + 1, k - 1);
      SlotIs(slots, offset, k - 1, s);
    }
  }

  /** The slot of the table that contains the time, and the number of whole frames before it. */
  function Scheduled(t: Table, now: nat): nat
    requires Sound(t) && t.majorFrame > 0
  {
    SlotAt(t.slots, now % t.majorFrame, |t.slots|)
  }

  lemma SoundFrame(t: Table)
    requires Sound(t)
    ensures t.majorFrame > 0
  {
    BeginIsMonotone(t.slots, 1, |t.slots|);
  }

  /** A state conforms exactly if it is the one the time determines. */
  lemma ConformsMeans(t: Table, c: Clock, now: nat)
    requires Sound(t) && Conforms(t, c, now)
    ensures t.majorFrame > 0
    ensures c.flushes == now / t.majorFrame && c.slot == Scheduled(t, now)
    ensures c.partition == t.allocation[Scheduled(t, now)]
  {
    SoundFrame(t);
    BeginIsMonotone(t.slots, c.slot + 1, |t.slots|);
    var offset := now - c.flushes * t.majorFrame;
    DivModUnique(now, t.majorFrame, c.flushes, offset);
    SlotIs(t.slots, offset, |t.slots|, c.slot);
  }

  /** The state after the elections at the given times. */
  function After(t: Table, times: seq<nat>): Clock
    requires |t.slots| == |t.allocation| >= 1
  {
    if times == [] then Start(t) else Elect(t, After(t, times[..|times| - 1]), times[|times| - 1])
  }

  /** Elections come at least once per tick. */
  ghost predicate EveryTick(times: seq<nat>) {
    && (times != [] ==> times[0] <= 1)
    && forall i | 0 < i < |times| :: times[i - 1] <= times[i] <= times[i - 1] + 1
  }

  function Last(times: seq<nat>): nat {
    if times == [] then 0 else times[|times| - 1]
  }

  /** Time table conformance, after every election of a run. */
  lemma {:induction false} ConformsAlways(t: Table, times: seq<nat>)
    requires Sound(t) && EveryTick(times)
    ensures Conforms(t, After(t, times), Last(times))
  {
    if times == [] {
      BeginIsMonotone(t.slots, 1, |t.slots|);
      assert Begin(t.slots, 1) == t.slots[0];
    } else {
      var before := times[..|times| - 1];
      ConformsAlways(t, before);
      var c := After(t, before);
      NextSlot(c.slot, |t.slots|);
      ConformsIff(t, c, Last(before), Last(times));
    }
  }

  /** At every election the partition is the allocation of the slot that contains the time modulo
      the major frame, and the ports have been flushed once for every frame that has ended. */
  lemma TableIsFollowed(t: Table, times: seq<nat>)
    requires Sound(t) && EveryTick(times)
    ensures t.majorFrame > 0
    ensures var c := After(t, times);
            && c.partition == t.allocation[Scheduled(t, Last(times))]
            && c.flushes == Last(times) / t.majorFrame
  {
    ConformsAlways(t, times);
    ConformsMeans(t, After(t, times), Last(times));
  }

  lemma OneMoreTime(t: Table, times: seq<nat>, now: nat)
    requires |t.slots| == |t.allocation| >= 1 && EveryTick(times + [now])
    ensures EveryTick(times) && Last(times) <= now <= Last(times) + 1
    ensures After(t, times + [now]) == Elect(t, After(t, times), now)
  {
    var all := times + [now];
    assert all[..|all| - 1] == times;
    if times != [] {
      assert all[0] == times[0] && all[|times| - 1] == times[|times| - 1] && all[|times|] == now;
      forall i | 0 < i < |times| ensures times[i - 1] <= times[i] <= times[i - 1] + 1 {
        assert all[i - 1] == times[i - 1] && all[i] == times[i];
      }
    }
  }

  lemma FlushStep(t: Table, c: Clock, now: nat, later: nat)
    requires Sound(t) && Conforms(t, c, now) && now <= later <= now + 1
    ensures var c' := Elect(t, c, later);
            && (c'.flushes == c.flushes + 1 <==> c'.slot == 0 && c.nextDeadline <= later)
            && (c'.flushes == c.flushes + 1 || c'.flushes == c.flushes)
  {
    NextSlot(c.slot, |t.slots|);
    if c.slot + 1 < |t.slots| {
      BeginGrows(t.slots, c.slot + 1, |t.slots|);
    }
  }

  /** The ports are flushed exactly by the elections that go back to slot 0. */
  lemma FlushesAtWrap(t: Table, times: seq<nat>, now: nat)
    requires Sound(t) && EveryTick(times + [now])
    ensures var c, c' := After(t, times), After(t, times + [now]);
            && (c'.flushes == c.flushes + 1 <==> c'.slot == 0 && c.nextDeadline <= now)
            && (c'.flushes == c.flushes + 1 || c'.flushes == c.flushes)
  {
    hide *;
    SoundLengths(t);
    OneMoreTime(t, times, now);
    ConformsAlways(t, times);
    FlushStep(t, After(t, times), Last(times), now);
  }

  lemma SoundLengths(t: Table)
    requires Sound(t)
    ensures |t.allocation| == |t.slots| >= 1
  {
  }

  /** The variables in place. `current` is `pok_current_partition`. */
  class Scheduler {
    const table: Table
    var slot: nat
    var nextDeadline: nat
    var nextMajorFrame: nat
    var current: nat
    ghost var flushes: nat

    ghost function State(): Clock
      reads this
    {
      Clock(slot, nextDeadline, nextMajorFrame, current, flushes)
    }

    ghost predicate Valid()
      reads this
    {
      |table.slots| == |table.allocation| >= 1 && slot < |table.slots|
    }

    /** `pok_sched_init`. */
    constructor Init(t: Table)
      requires |t.slots| == |t.allocation| >= 1
      ensures Valid() && table == t && State() == Start(t)
    {
      table := t;
      slot := 0;
      nextMajorFrame := t.majorFrame;
      nextDeadline := t.slots[0];
      current := t.allocation[0];
      flushes := 0;
    }

    /** The check in `pok_sched_init` that the slots fill the major frame. */
    method IsCompliant() returns (compliant: bool)
      requires Valid()
      ensures compliant <==> Begin(table.slots, |table.slots|) == table.majorFrame
    {
      var totalTime := 0;
      var i := 0;
      while i < |table.slots|
        invariant 0 <= i <= |table.slots| && totalTime == Begin(table.slots, i)
      {
        totalTime := totalTime + table.slots[i];
        i := i + 1;
      }
      compliant := totalTime == table.majorFrame;
    }

    /** `pok_elect_partition`, and the assignment of its result in `pok_global_sched`. Partitions
        that are still being initialized are chosen in the same way. */
    method ElectPartition(now: nat)
      requires Valid()
      modifies this
      ensures Valid() && State() == Elect(table, old(State()), now)
    {
      var next := current;
      if nextDeadline <= now {
        if nextMajorFrame <= now {
          nextMajorFrame := nextMajorFrame + table.majorFrame;
          flushes := flushes + 1;
        }
        slot := (slot + 1) % |table.slots|;
        nextDeadline := nextDeadline + table.slots[slot];
        next := table.allocation[slot];
      }
      current := next;
    }
  }
}
