/** Weighted round robin among threads of the highest priority: `pok_sched_part_pwrr`,
    kernel/core/sched.c, lines 977-1123. */
module PriorityRoundRobin {
  import opened Threads

  function Priority(t: Thread): nat {
    t.priority
  }

  ghost predicate IsPeer(threads: seq<Thread>, proc: nat, priority: nat, i: nat)
    requires i < |threads|
  {
    Eligible(threads[i], proc) && threads[i].priority == priority
  }

  /** `i` is the first thread of the given priority that a scan meets behind `from`. */
  ghost predicate IsNextPeer(threads: seq<Thread>, low: nat, high: nat, from: nat, proc: nat, priority: nat, i: nat)
    requires low <= from < high <= |threads|
  {
    && low <= i < high && i != from && IsPeer(threads, proc, priority, i)
    && forall j | low <= j < high && j != from && IsPeer(threads, proc, priority, j) ::
         Distance(low, high, from, i) <= Distance(low, high, from, j)
  }

  /** The scan of lines 1040-1067. */
  method NextPeer(threads: array<Thread>, low: nat, high: nat, from: nat, priority: nat, proc: nat)
    returns (found: bool, i: nat)
    requires low <= from < high <= threads.Length
    ensures found ==> IsNextPeer(threads[..], low, high, from, proc, priority, i)
    ensures !found ==> forall j | low <= j < high && j != from :: !IsPeer(threads[..], proc, priority, j)
  {
    i := from + 1;
    if i >= high {
      i := low;
    }
    ghost var k := 1;
    while i != from
      invariant 1 <= k <= high - low && low <= i < high
      invariant if i != from then Distance(low, high, from, i) == k else k == high - low
      invariant forall j | low <= j < high && j != from && Distance(low, high, from, j) < k ::
                  !IsPeer(threads[..], proc, priority, j)
      decreases high - low - k
    {
      if threads[i].state == Runnable && threads[i].affinity == proc && threads[i].priority == priority {
        return true, i;
      }
      i := i + 1;
      if i >= high {
        i := low;
      }
      k := k + 1;
    }
    found := false;
  }

  /** The idle thread has the lowest priority and no slice. */
  ghost predicate Scene(threads: seq<Thread>, low: nat, high: nat, prev: nat, cur: nat, idle: nat) {
    && low < high <= idle < |threads|
    && (cur == idle || low <= cur < high) && (prev == idle || low <= prev < high)
    && threads[idle].priority == 0 && threads[idle].remainingTimeslice == 0
  }

  /** Where the scans start. */
  function From(low: nat, prev: nat, cur: nat, idle: nat): nat {
    if prev == idle then low else if cur != idle then cur else prev
  }

  function Left(t: Thread): nat {
    if t.remainingTimeslice > 0 then t.remainingTimeslice - 1 else 0
  }

  ghost predicate Preempted(threads: seq<Thread>, low: nat, high: nat, proc: nat, cur: nat)
    requires high <= |threads| && cur < |threads|
  {
    exists j :: low <= j < high && Eligible(threads[j], proc) && threads[j].priority > threads[cur].priority
  }

  ghost predicate Continues(t: Thread) {
    t.state == Runnable && t.remainingTimeCapacity > 0 && Left(t) > 0
  }

  ghost predicate HasPeer(threads: seq<Thread>, low: nat, high: nat, from: nat, proc: nat, cur: nat)
    requires high <= |threads| && cur < |threads|
  {
    exists j :: low <= j < high && j != from && IsPeer(threads, proc, threads[cur].priority, j)
  }

  /** The one case in which somebody could run and the idle thread is elected: only threads of
      priority 0 can run, the current one is not among them, and either its priority is higher or
      the only thread that can run is the one where the scan starts. */
  ghost predicate Overlooked(threads: seq<Thread>, low: nat, high: nat, from: nat, proc: nat, cur: nat, idle: nat)
    requires high <= |threads| && cur < |threads|
  {
    && !NoneEligible(threads, low, high, proc)
    && (forall j | low <= j < high && Eligible(threads[j], proc) ::
          threads[j].priority == 0 && j != cur && (threads[cur].priority == 0 ==> j == from))
  }

  /** Who runs next, given that nobody has a higher priority than the current thread and that its
      slice is used up. */
  ghost predicate NextBest(
      threads: seq<Thread>, low: nat, high: nat, from: nat, proc: nat, cur: nat, idle: nat, elected: nat)
    requires low <= from < high <= |threads| && cur < |threads|
  {
    if HasPeer(threads, low, high, from, proc, cur) then
      IsNextPeer(threads, low, high, from, proc, threads[cur].priority, elected)
    else if cur != idle && Eligible(threads[cur], proc) then elected == cur
    else if NoneEligible(threads, low, high, proc) || Overlooked(threads, low, high, from, proc, cur, idle) then
      elected == idle
    else IsFirstBest(threads, Priority, low, high, from, proc, elected)
  }

  /** The whole election, as a relation. */
  ghost predicate ElectedPwrr(
      threads: seq<Thread>, low: nat, high: nat, prev: nat, cur: nat, idle: nat, proc: nat, elected: nat)
    requires Scene(threads, low, high, prev, cur, idle)
  {
    var from := From(low, prev, cur, idle);
    if Preempted(threads, low, high, proc, cur) then IsFirstBest(threads, Priority, low, high, from, proc, elected)
    else if Continues(threads[cur]) then elected == cur
    else NextBest(threads, low, high, from, proc, cur, idle, elected)
  }

  /** The table that the election leaves: the slice of the current thread has been charged, or refilled
      when its turn is over. */
  ghost function AfterElection(threads: seq<Thread>, low: nat, high: nat, cur: nat, idle: nat, proc: nat): seq<Thread>
    requires high <= |threads| && cur < |threads|
  {
    var over := cur != idle && (Preempted(threads, low, high, proc, cur) || !Continues(threads[cur]));
    WithSlice(threads, cur, if over then threads[cur].weight else Left(threads[cur]))
  }

  /** A current thread of another processor goes on: line 1023 does not ask for its affinity. */
  ghost predicate Foreign(threads: seq<Thread>, low: nat, high: nat, proc: nat, cur: nat)
    requires high <= |threads| && cur < |threads|
  {
    !Preempted(threads, low, high, proc, cur) && Continues(threads[cur]) && threads[cur].affinity != proc
  }

  /** Priorities are inverted in no case but `Foreign`: the elected thread can run and nobody that can
      has a higher priority, or it is the idle one; and the idle thread is elected exactly if nobody
      can run, or in the one case of `Overlooked`, which needs threads of priority 0. */
  lemma NoInversion(
      threads: seq<Thread>, low: nat, high: nat, prev: nat, cur: nat, idle: nat, proc: nat, elected: nat)
    requires Scene(threads, low, high, prev, cur, idle)
    requires ElectedPwrr(threads, low, high, prev, cur, idle, proc, elected)
    ensures elected == idle || IsBest(threads, Priority, low, high, proc, elected)
            <==> !Foreign(threads, low, high, proc, cur)
    ensures elected == idle <==>
            && !Foreign(threads, low, high, proc, cur)
            && (NoneEligible(threads, low, high, proc) ||
                Overlooked(threads, low, high, From(low, prev, cur, idle), proc, cur, idle))
    ensures Foreign(threads, low, high, proc, cur) ==> elected == cur && !Eligible(threads[elected], proc)
    ensures elected == idle ==>
              forall j | low <= j < high && Eligible(threads[j], proc) :: threads[j].priority == 0
  {
  }

  /** A partition whose only thread can run at priority 0 stays idle: a case of `Overlooked`. */
  lemma OverlookedAlone(t: Thread, i: Thread, proc: nat)
    requires Eligible(t, proc) && t.priority == 0
    requires i.priority == 0 && i.remainingTimeslice == 0
    ensures Scene([t, i], 0, 1, 1, 1, 1) && !NoneEligible([t, i], 0, 1, proc)
    ensures ElectedPwrr([t, i], 0, 1, 1, 1, 1, proc, 1)
  {
    assert Eligible([t, i][0], proc);
  }

  /** Slices decide nothing but whether the current thread continues. */
  ghost predicate Alike(threads: seq<Thread>, threads': seq<Thread>, proc: nat) {
    && |threads| == |threads'|
    && forall j | 0 <= j < |threads| ::
         Eligible(threads'[j], proc) == Eligible(threads[j], proc) && threads'[j].priority == threads[j].priority
  }

  lemma AlikeButSlice(threads: seq<Thread>, i: nat, slice: nat, proc: nat)
    requires i < |threads|
    ensures Alike(threads, WithSlice(threads, i, slice), proc) && Alike(WithSlice(threads, i, slice), threads, proc)
  {
  }

  lemma TransferScan(threads: seq<Thread>, threads': seq<Thread>, low: nat, high: nat, from: nat, proc: nat,
      i: nat, p: nat)
    requires low <= from < high <= |threads| && Alike(threads, threads', proc) && i < |threads|
    ensures NoneEligible(threads', low, high, proc) <==> NoneEligible(threads, low, high, proc)
    ensures IsFirstBest(threads', Priority, low, high, from, proc, i)
            <==> IsFirstBest(threads, Priority, low, high, from, proc, i)
    ensures IsNextPeer(threads', low, high, from, proc, p, i) <==> IsNextPeer(threads, low, high, from, proc, p, i)
  {
    hide Eligible;
    hide Distance;
    assert forall j | 0 <= j < |threads| :: IsPeer(threads', proc, p, j) == IsPeer(threads, proc, p, j);
  }

  lemma TransferCurrent(threads: seq<Thread>, threads': seq<Thread>, low: nat, high: nat, from: nat, proc: nat,
      cur: nat, idle: nat)
    requires low <= from < high <= |threads| && Alike(threads, threads', proc) && cur < |threads|
    ensures Preempted(threads', low, high, proc, cur) <==> Preempted(threads, low, high, proc, cur)
    ensures HasPeer(threads', low, high, from, proc, cur) <==> HasPeer(threads, low, high, from, proc, cur)
    ensures Overlooked(threads', low, high, from, proc, cur, idle)
            <==> Overlooked(threads, low, high, from, proc, cur, idle)
  {
    hide Eligible;
    assert forall j | 0 <= j < |threads| ::
             IsPeer(threads', proc, threads[cur].priority, j) == IsPeer(threads, proc, threads[cur].priority, j);
  }

  lemma Transfer(threads: seq<Thread>, threads': seq<Thread>, low: nat, high: nat, from: nat, proc: nat, cur: nat,
                 idle: nat, elected: nat)
    requires low <= from < high <= |threads| && Alike(threads, threads', proc)
    requires cur < |threads| && elected < |threads|
    ensures Preempted(threads', low, high, proc, cur) <==> Preempted(threads, low, high, proc, cur)
    ensures IsFirstBest(threads', Priority, low, high, from, proc, elected)
            <==> IsFirstBest(threads, Priority, low, high, from, proc, elected)
    ensures NextBest(threads', low, high, from, proc, cur, idle, elected)
            <==> NextBest(threads, low, high, from, proc, cur, idle, elected)
  {
    hide Eligible;
    hide IsFirstBest;
    hide IsNextPeer;
    hide Preempted;
    hide HasPeer;
    hide Overlooked;
    hide NoneEligible;
    TransferScan(threads, threads', low, high, from, proc, elected, threads[cur].priority);
    TransferCurrent(threads, threads', low, high, from, proc, cur, idle);
  }

  /** What the first scan tells. */
  lemma FirstScan(threads: seq<Thread>, low: nat, high: nat, from: nat, proc: nat, cur: nat, none: bool, best: nat)
    requires low <= from < high <= |threads| && cur < |threads|
    requires if none then NoneEligible(threads, low, high, proc)
             else IsFirstBest(threads, Priority, low, high, from, proc, best)
    ensures Preempted(threads, low, high, proc, cur) <==>
            !none && best < |threads| && threads[best].priority > threads[cur].priority
  {
  }

  /** What the last scan tells, when no peer was found and the current thread cannot go on. */
  lemma LastScan(threads: seq<Thread>, low: nat, high: nat, from: nat, proc: nat, cur: nat, idle: nat,
                 none: bool, best: nat)
    requires low <= from < high <= idle < |threads| && (cur == idle || low <= cur < high)
    requires threads[idle].priority == 0
    requires if none then NoneEligible(threads, low, high, proc)
             else IsFirstBest(threads, Priority, low, high, from, proc, best)
    requires !Preempted(threads, low, high, proc, cur) && !HasPeer(threads, low, high, from, proc, cur)
    requires !(cur != idle && Eligible(threads[cur], proc))
    ensures NextBest(threads, low, high, from, proc, cur, idle,
                     if none || threads[best].priority == 0 then idle else best)
  {
    if !none && threads[best].priority == 0 {
      forall j | low <= j < high && Eligible(threads[j], proc)
        ensures threads[j].priority == 0 && j != cur && (threads[cur].priority == 0 ==> j == from)
      {
        assert threads[cur].priority == 0 ==> IsPeer(threads, proc, threads[cur].priority, j);
      }
    }
  }

  /** The turn passes on: lines 1034-1122. */
  method PassOn(threads: array<Thread>, low: nat, high: nat, from: nat, cur: nat, idle: nat, proc: nat)
    returns (elected: nat)
    requires low <= from < high <= idle < threads.Length && (cur == idle || low <= cur < high)
    requires threads[idle].priority == 0 && !Preempted(threads[..], low, high, proc, cur)
    modifies threads
    ensures elected < threads.Length && NextBest(threads[..], low, high, from, proc, cur, idle, elected)
    ensures threads[..] == if cur != idle then WithSlice(old(threads[..]), cur, old(threads[cur]).weight)
                           else old(threads[..])
  {
    ghost var s := threads[..];
    hide Distance;
    hide IsFirstBest;
    hide IsNextPeer;
    hide NoneEligible;
    hide Preempted;
    if cur != idle {
      SetSlice(threads, cur, threads[cur].weight);
    }
    ghost var t := threads[..];
    SamePreempted(s, t, low, high, proc, cur);
    var found, i := NextPeer(threads, low, high, from, threads[cur].priority, proc);
    if found {
      assert HasPeer(threads[..], low, high, from, proc, cur) by {
        PeerFound(threads[..], low, high, from, proc, cur, i);
      }
      return i;
    }
    assert !HasPeer(threads[..], low, high, from, proc, cur);
    if threads[cur].state == Runnable && threads[cur].affinity == proc && cur != idle {
      SetSlice(threads, cur, threads[cur].weight);
      assert threads[..] == t;
      return cur;
    }
    var maxPrio, maxThread := Highest(threads, Priority, low, high, from, proc);
    LastScan(threads[..], low, high, from, proc, cur, idle, maxPrio == -1, maxThread);
    elected := if maxPrio >= 0 then maxThread else idle;
    if threads[elected].priority > 0 {
      if cur != idle {
        SetSlice(threads, cur, threads[cur].weight);
        assert threads[..] == t;
      }
      return elected;
    }
    return idle;
  }

  lemma PeerFound(threads: seq<Thread>, low: nat, high: nat, from: nat, proc: nat, cur: nat, i: nat)
    requires low <= from < high <= |threads| && cur < |threads|
    requires IsNextPeer(threads, low, high, from, proc, threads[cur].priority, i)
    ensures HasPeer(threads, low, high, from, proc, cur)
  {
  }

  lemma SamePreempted(threads: seq<Thread>, threads': seq<Thread>, low: nat, high: nat, proc: nat, cur: nat)
    requires high <= |threads| && cur < |threads| && !Preempted(threads, low, high, proc, cur)
    requires threads' == threads || threads' == WithSlice(threads, cur, threads[cur].weight)
    ensures !Preempted(threads', low, high, proc, cur)
  {
  }

  /** Line 1023: the current thread may go on with what is left of its slice. */
  predicate HasSlice(t: Thread) {
    t.state == Runnable && t.remainingTimeCapacity > 0 && t.remainingTimeslice > 0
  }

  /** The election after the current thread has been charged: lines 993-1122. */
  method Choose(threads: array<Thread>, low: nat, high: nat, from: nat, cur: nat, idle: nat, proc: nat)
    returns (elected: nat)
    requires low <= from < high <= idle < threads.Length && (cur == idle || low <= cur < high)
    requires threads[idle].priority == 0
    modifies threads
    ensures elected < threads.Length
    ensures var s := old(threads[..]);
            if Preempted(s, low, high, proc, cur) then IsFirstBest(s, Priority, low, high, from, proc, elected)
            else if HasSlice(s[cur]) then elected == cur
            else NextBest(s, low, high, from, proc, cur, idle, elected)
    ensures var s := old(threads[..]);
            threads[..] == if cur != idle && (Preempted(s, low, high, proc, cur) || !HasSlice(s[cur]))
                           then WithSlice(s, cur, s[cur].weight) else s
  {
    hide Distance;
    hide IsFirstBest;
    hide IsNextPeer;
    hide NoneEligible;
    hide Preempted;
    hide NextBest;
    hide Alike;
    ghost var s := threads[..];
    var maxPrio, maxThread := Highest(threads, Priority, low, high, from, proc);
    elected := if maxPrio >= 0 then maxThread else idle;
    FirstScan(s, low, high, from, proc, cur, maxPrio == -1, maxThread);
    if threads[elected].priority > threads[cur].priority {
      if cur != idle {
        SetSlice(threads, cur, threads[cur].weight);
      }
      return elected;
    }
    if threads[cur].state == Runnable && threads[cur].remainingTimeCapacity > 0 &&
       threads[cur].remainingTimeslice > 0 {
      return cur;
    }
    elected := PassOn(threads, low, high, from, cur, idle, proc);
    if cur != idle {
      AlikeButSlice(s, cur, s[cur].weight, proc);
      Transfer(s, threads[..], low, high, from, proc, cur, idle, elected);
    }
  }

  /** `pok_sched_part_pwrr`. */
  method ElectPwrr(threads: array<Thread>, low: nat, high: nat, prev: nat, cur: nat, idle: nat, proc: nat)
    returns (elected: nat)
    requires Scene(threads[..], low, high, prev, cur, idle)
    modifies threads
    ensures ElectedPwrr(old(threads[..]), low, high, prev, cur, idle, proc, elected)
    ensures threads[..] == AfterElection(old(threads[..]), low, high, cur, idle, proc)
  {
    hide Distance;
    hide IsFirstBest;
    hide NoneEligible;
    hide Preempted;
    hide NextBest;
    hide Alike;
    hide Eligible;
    ghost var s := threads[..];
    var from := if cur != idle then cur else prev;
    if threads[cur].remainingTimeslice > 0 {
      SetSlice(threads, cur, threads[cur].remainingTimeslice - 1);
    }
    ghost var t := threads[..];
    assert t == WithSlice(s, cur, Left(s[cur]));
    AlikeButSlice(s, cur, Left(s[cur]), proc);
    if prev == idle {
      from := low;
    }
    elected := Choose(threads, low, high, from, cur, idle, proc);
    Transfer(s, t, low, high, from, proc, cur, idle, elected);
  }
}
