/** Earliest deadline first, inside a partition and between partitions: `pok_sched_part_pedf` and
    `pok_sched_part_global_pedf`, kernel/core/sched.c, lines 850-888 and 1396-1430. */
module EarliestDeadline {
  import opened Threads

  const UINT64_MAX: nat := 0xFFFF_FFFF_FFFF_FFFF

  /** Thread `j` can run, is among the first `k` of the scan, and comes behind every thread of
      deadline 0 among them that can run. */
  ghost predicate BehindZeros(threads: seq<Thread>, low: nat, high: nat, from: nat, proc: nat, k: nat, j: nat)
    requires low <= from < high <= |threads|
  {
    && low <= j < high && Eligible(threads[j], proc) && Distance(low, high, from, j) < k && threads[j].ddl > 0
    && forall z | low <= z < high && Eligible(threads[z], proc) && threads[z].ddl == 0 ::
         Distance(low, high, from, z) < k ==> Distance(low, high, from, z) < Distance(low, high, from, j)
  }

  /** What a scan of `k` threads has found: nobody yet or nobody since the last thread of deadline 0,
      or the first thread of the earliest deadline since then. */
  ghost predicate Found(
      threads: seq<Thread>, low: nat, high: nat, from: nat, proc: nat, k: nat, earliest: nat, who: nat)
    requires low <= from < high <= |threads|
  {
    if earliest == 0 then forall j: nat :: !BehindZeros(threads, low, high, from, proc, k, j)
    else
      && BehindZeros(threads, low, high, from, proc, k, who) && threads[who].ddl == earliest
      && forall j: nat | BehindZeros(threads, low, high, from, proc, k, j) ::
           && earliest <= threads[j].ddl
           && (threads[j].ddl == earliest ==> Distance(low, high, from, who) <= Distance(low, high, from, j))
  }

  lemma ScanStep(threads: seq<Thread>, low: nat, high: nat, from: nat, proc: nat, k: nat, earliest: nat,
      who: nat, i: nat)
    requires low <= from < high <= |threads| && low <= i < high && Distance(low, high, from, i) == k
    requires Found(threads, low, high, from, proc, k, earliest, who)
    ensures var better := Eligible(threads[i], proc) && (threads[i].ddl < earliest || earliest <= 0);
            Found(threads, low, high, from, proc, k + 1,
                  if better then threads[i].ddl else earliest, if better then i else who)
  {
    var t := threads[i];
    forall j: nat | j != i
      ensures BehindZeros(threads, low, high, from, proc, k + 1, j) <==>
              BehindZeros(threads, low, high, from, proc, k, j) && !(Eligible(t, proc) && t.ddl == 0)
    {
      if BehindZeros(threads, low, high, from, proc, k, j) && !(Eligible(t, proc) && t.ddl == 0) {
        assert forall z | low <= z < high && Distance(low, high, from, z) == k :: z == i;
      }
    }
    assert BehindZeros(threads, low, high, from, proc, k + 1, i) <==> Eligible(t, proc) && t.ddl > 0;
    assert !BehindZeros(threads, low, high, from, proc, k, i);
    var better := Eligible(t, proc) && (t.ddl < earliest || earliest <= 0);
    var earliest', who' := if better then t.ddl else earliest, if better then i else who;
    forall j: nat | BehindZeros(threads, low, high, from, proc, k + 1, j)
      ensures 0 < earliest' <= threads[j].ddl
      ensures threads[j].ddl == earliest' ==> Distance(low, high, from, who') <= Distance(low, high, from, j)
    {
      assert j != i ==> BehindZeros(threads, low, high, from, proc, k, j);
    }
    assert earliest' > 0 ==> BehindZeros(threads, low, high, from, proc, k + 1, who');
  }

  /** `pok_sched_part_pedf`. */
  method ElectPedf(threads: array<Thread>, low: nat, high: nat, prev: nat, cur: nat, idle: nat, proc: nat)
    returns (elected: nat)
    requires low < high <= idle < threads.Length
    requires (cur == idle || low <= cur < high) && (prev == idle || low <= prev < high)
    ensures var from := if prev == idle then low else if cur != idle then cur else prev;
            ElectedPedf(threads[..], low, high, from, proc, idle, elected)
  {
    hide Found;
    hide Distance;
    var from := if cur != idle then cur else prev;
    var earliest: nat, maxThread: nat := 0, idle;
    if prev == idle {
      from := low;
    }
    ScanStart(threads[..], low, high, from, proc, idle);
    var i := from;
    ghost var k := 0;
    var again := true;
    while again
      invariant 0 <= k <= high - low && low <= i < high
      invariant if again then k < high - low && Distance(low, high, from, i) == k else k == high - low
      invariant Found(threads[..], low, high, from, proc, k, earliest, maxThread)
      decreases high - low - k
    {
      ScanStep(threads[..], low, high, from, proc, k, earliest, maxThread, i);
      DistanceStep(low, high, from, i);
      if threads[i].state == Runnable && threads[i].affinity == proc &&
         (threads[i].ddl < earliest || earliest <= 0) {
        earliest := threads[i].ddl;
        maxThread := i;
      }
      i := i + 1;
      if i >= high {
        i := low;
      }
      k := k + 1;
      again := i != from;
    }
    FoundIs(threads[..], low, high, from, proc, k, earliest, maxThread, idle);
    elected := if earliest > 0 then maxThread else idle;
  }

  lemma FoundIs(threads: seq<Thread>, low: nat, high: nat, from: nat, proc: nat, k: nat, earliest: nat, who: nat,
      idle: nat)
    requires low <= from < high <= |threads| && Found(threads, low, high, from, proc, k, earliest, who)
    ensures earliest > 0 ==> low <= who < high && threads[who].ddl == earliest
    ensures earliest == 0 ==> Found(threads, low, high, from, proc, k, 0, idle)
  {
  }

  lemma ScanStart(threads: seq<Thread>, low: nat, high: nat, from: nat, proc: nat, who: nat)
    requires low <= from < high <= |threads|
    ensures Distance(low, high, from, from) == 0 && Found(threads, low, high, from, proc, 0, 0, who)
  {
  }

  lemma DistanceStep(low: nat, high: nat, from: nat, i: nat)
    requires low <= from < high && low <= i < high
    ensures var next := if i + 1 >= high then low else i + 1;
            && (next == from <==> Distance(low, high, from, i) == high - low - 1)
            && (next != from ==> Distance(low, high, from, next) == Distance(low, high, from, i) + 1)
  {
  }

  ghost predicate ElectedPedf(threads: seq<Thread>, low: nat, high: nat, from: nat, proc: nat, idle: nat, elected: nat)
    requires low <= from < high <= idle < |threads|
  {
    if elected == idle then Found(threads, low, high, from, proc, high - low, 0, idle)
    else low <= elected < high && threads[elected].ddl > 0 &&
         Found(threads, low, high, from, proc, high - low, threads[elected].ddl, elected)
  }

  /** Who is elected, threads of deadline 0 included: of the threads that can run and come behind all those
      of deadline 0, in the order of the scan, the first of the earliest deadline. */
  lemma PedfIs(threads: seq<Thread>, low: nat, high: nat, from: nat, proc: nat, idle: nat, elected: nat)
    requires low <= from < high <= idle < |threads|
    requires ElectedPedf(threads, low, high, from, proc, idle, elected)
    ensures elected != idle ==>
              && low <= elected < high && Eligible(threads[elected], proc) && threads[elected].ddl > 0
              && forall z | low <= z < high && Eligible(threads[z], proc) && threads[z].ddl == 0 ::
                   Distance(low, high, from, z) < Distance(low, high, from, elected)
    ensures forall j | low <= j < high && Eligible(threads[j], proc) && threads[j].ddl > 0 ::
              (forall z | low <= z < high && Eligible(threads[z], proc) && threads[z].ddl == 0 ::
                 Distance(low, high, from, z) < Distance(low, high, from, j)) ==>
              && elected != idle && threads[elected].ddl <= threads[j].ddl
              && (threads[elected].ddl == threads[j].ddl ==>
                    Distance(low, high, from, elected) <= Distance(low, high, from, j))
  {
    hide Distance;
    forall j: nat | low <= j < high && Eligible(threads[j], proc) && threads[j].ddl > 0
      ensures BehindZeros(threads, low, high, from, proc, high - low, j) <==>
              forall z | low <= z < high && Eligible(threads[z], proc) && threads[z].ddl == 0 ::
                Distance(low, high, from, z) < Distance(low, high, from, j)
    {
    }
  }

  /** Nobody of the threads `low..high` that can run has an earlier deadline. */
  ghost predicate IsEarliest(threads: seq<Thread>, low: nat, high: nat, proc: nat, i: nat)
    requires high <= |threads|
  {
    && low <= i < high && Eligible(threads[i], proc)
    && forall j | low <= j < high && Eligible(threads[j], proc) :: threads[i].ddl <= threads[j].ddl
  }

  ghost predicate HasZero(threads: seq<Thread>, low: nat, high: nat, proc: nat)
    requires high <= |threads|
  {
    exists j :: low <= j < high && Eligible(threads[j], proc) && threads[j].ddl == 0
  }

  /** Inside a partition a thread of the earliest deadline is elected if and only if somebody can
      run and nobody that can has deadline 0. */
  lemma EarliestIff(threads: seq<Thread>, low: nat, high: nat, from: nat, proc: nat, idle: nat, elected: nat)
    requires low <= from < high <= idle < |threads|
    requires ElectedPedf(threads, low, high, from, proc, idle, elected)
    ensures elected != idle && IsEarliest(threads, low, high, proc, elected) <==>
            !NoneEligible(threads, low, high, proc) && !HasZero(threads, low, high, proc)
  {
    if !HasZero(threads, low, high, proc) {
      forall j | low <= j < high && Eligible(threads[j], proc)
        ensures BehindZeros(threads, low, high, from, proc, high - low, j)
      {
      }
    }
  }

  datatype Part = Part(low: nat, high: nat)

  ghost predicate Parts(parts: seq<Part>, idle: nat) {
    forall p | 0 <= p < |parts| :: parts[p].low < parts[p].high <= idle
  }

  /** `d` is the earliest deadline of the threads `low..high` that are runnable, or the maximum. */
  ghost predicate IsDeadline(threads: seq<Thread>, low: nat, high: nat, d: nat)
    requires high <= |threads|
  {
    && d <= UINT64_MAX
    && (forall j | low <= j < high && threads[j].state == Runnable && threads[j].ddl <= UINT64_MAX ::
        d <= threads[j].ddl)
    && (d < UINT64_MAX ==> exists j :: low <= j < high && threads[j].state == Runnable && threads[j].ddl == d)
  }

  ghost predicate AreDeadlines(threads: seq<Thread>, parts: seq<Part>, idle: nat, deadlines: seq<nat>) {
    && Parts(parts, idle) && idle < |threads| && |deadlines| == |parts|
    && forall p | 0 <= p < |parts| :: IsDeadline(threads, parts[p].low, parts[p].high, deadlines[p])
  }

  /** `caculate_and_update_deadline`. */
  method UpdateDeadlines(threads: array<Thread>, parts: seq<Part>, idle: nat, deadlines: array<nat>)
    requires Parts(parts, idle) && idle < threads.Length && deadlines.Length == |parts|
    modifies deadlines
    ensures forall p | 0 <= p < |parts| :: IsDeadline(threads[..], parts[p].low, parts[p].high, deadlines[p])
  {
    hide IsDeadline;
    var i := 0;
    while i < |parts|
      invariant 0 <= i <= |parts|
      invariant forall p | 0 <= p < i :: IsDeadline(threads[..], parts[p].low, parts[p].high, deadlines[p])
    {
      deadlines[i] := Deadline(threads, parts[i].low, parts[i].high);
      i := i + 1;
    }
  }

  method Deadline(threads: array<Thread>, low: nat, high: nat) returns (deadline: nat)
    requires low <= high <= threads.Length
    ensures IsDeadline(threads[..], low, high, deadline)
  {
    deadline := UINT64_MAX;
    var j := low;
    while j < high
      invariant low <= j <= high && IsDeadline(threads[..], low, j, deadline)
    {
      if threads[j].state == Runnable && threads[j].ddl < deadline {
        deadline := threads[j].ddl;
      }
      j := j + 1;
    }
  }

  /** The first partition of the earliest deadline, or the current one if all are at the maximum. */
  ghost predicate IsChoice(deadlines: seq<nat>, current: nat, next: nat) {
    if forall p | 0 <= p < |deadlines| :: deadlines[p] >= UINT64_MAX then next == current
    else
      && next < |deadlines| && deadlines[next] < UINT64_MAX
      && (forall p | 0 <= p < |deadlines| :: deadlines[next] <= deadlines[p])
      && (forall p | 0 <= p < next :: deadlines[next] < deadlines[p])
  }

  /** `pok_sched_part_global_pedf`, on the table as it is after the activation of threads. */
  method ElectPartition(threads: array<Thread>, parts: seq<Part>, idle: nat, deadlines: array<nat>, current: nat)
    returns (next: nat)
    requires Parts(parts, idle) && idle < threads.Length && deadlines.Length == |parts| && current < |parts|
    modifies deadlines
    ensures next < |parts| && IsChoice(deadlines[..], current, next)
    ensures forall p | 0 <= p < |parts| :: deadlines[next] <= deadlines[p]
    ensures next != current ==> deadlines[next] < UINT64_MAX
    ensures forall p | 0 <= p < next :: deadlines[p] == deadlines[next] ==> deadlines[next] == UINT64_MAX
    ensures AreDeadlines(threads[..], parts, idle, deadlines[..])
  {
    hide IsDeadline;
    UpdateDeadlines(threads, parts, idle, deadlines);
    next := current;
    var minDeadline := UINT64_MAX;
    var i := 0;
    while i < |parts|
      invariant 0 <= i <= |parts| && next < |parts| && minDeadline <= UINT64_MAX
      invariant forall p | 0 <= p < i :: minDeadline <= deadlines[p]
      invariant if minDeadline == UINT64_MAX then next == current
                else deadlines[next] == minDeadline && forall p | 0 <= p < next :: minDeadline < deadlines[p]
    {
      if deadlines[i] < minDeadline {
        minDeadline := deadlines[i];
        next := i;
      }
      i := i + 1;
    }
    DeadlinesAreWords(threads[..], parts, idle, deadlines[..]);
  }

  lemma DeadlinesAreWords(threads: seq<Thread>, parts: seq<Part>, idle: nat, deadlines: seq<nat>)
    requires AreDeadlines(threads, parts, idle, deadlines)
    ensures forall p | 0 <= p < |deadlines| :: deadlines[p] <= UINT64_MAX
  {
  }

  /** Thread `j` of partition `p` can run. */
  ghost predicate CanRun(threads: seq<Thread>, parts: seq<Part>, proc: nat, p: nat, j: nat) {
    p < |parts| && parts[p].low <= j < parts[p].high <= |threads| && Eligible(threads[j], proc)
  }

  ghost predicate SomebodyCanRun(threads: seq<Thread>, parts: seq<Part>, proc: nat) {
    exists p: nat, j: nat :: CanRun(threads, parts, proc, p, j)
  }

  ghost predicate SomebodyBelowMaximum(threads: seq<Thread>, parts: seq<Part>, proc: nat) {
    exists p: nat, j: nat :: CanRun(threads, parts, proc, p, j) && threads[j].ddl < UINT64_MAX
  }

  ghost predicate NobodyAtZero(threads: seq<Thread>, parts: seq<Part>, proc: nat) {
    forall p: nat, j: nat | CanRun(threads, parts, proc, p, j) :: threads[j].ddl > 0
  }

  /** Thread `i` of partition `p` can run, and nobody of any partition that can run has an earlier
      deadline. */
  ghost predicate IsEarliestOfAll(threads: seq<Thread>, parts: seq<Part>, proc: nat, p: nat, i: nat) {
    && CanRun(threads, parts, proc, p, i)
    && forall q: nat, j: nat | CanRun(threads, parts, proc, q, j) :: threads[i].ddl <= threads[j].ddl
  }

  /** No deadline: later than every 64-bit time. */
  const NEVER: nat := UINT64_MAX + 1

  /** `d` is the earliest deadline of the threads of partition `p` that can run on this processor. */
  ghost predicate IsDeadlineHere(threads: seq<Thread>, parts: seq<Part>, proc: nat, p: nat, d: nat) {
    && (forall j: nat | CanRun(threads, parts, proc, p, j) :: d <= threads[j].ddl <= UINT64_MAX)
    && (d != NEVER ==> exists j: nat :: CanRun(threads, parts, proc, p, j) && threads[j].ddl == d)
  }

  /** The deadlines of the partitions, if only the threads of this processor are counted. */
  ghost predicate AreDeadlinesHere(threads: seq<Thread>, parts: seq<Part>, proc: nat, here: seq<nat>) {
    |here| == |parts| && forall p | 0 <= p < |parts| :: IsDeadlineHere(threads, parts, proc, p, here[p])
  }

  ghost predicate IsLeast(deadlines: seq<nat>, p: nat) {
    p < |deadlines| && forall q | 0 <= q < |deadlines| :: deadlines[p] <= deadlines[q]
  }

  /** The partition of the earliest deadline over all processors also has the earliest on this one. */
  ghost predicate ChoiceIsLeastHere(deadlines: seq<nat>, current: nat, here: seq<nat>) {
    forall p: nat | IsChoice(deadlines, current, p) :: IsLeast(here, p)
  }

  lemma OneChoice(deadlines: seq<nat>, current: nat, p: nat, q: nat)
    requires IsChoice(deadlines, current, p) && IsChoice(deadlines, current, q)
    ensures p == q
  {
  }

  lemma EarliestIsLeast(threads: seq<Thread>, parts: seq<Part>, proc: nat, here: seq<nat>, p: nat, i: nat)
    requires AreDeadlinesHere(threads, parts, proc, here) && p < |parts|
    requires IsEarliestOfAll(threads, parts, proc, p, i)
    ensures IsLeast(here, p)
  {
    assert IsDeadlineHere(threads, parts, proc, p, here[p]);
    assert here[p] <= threads[i].ddl <= UINT64_MAX;
    forall q | 0 <= q < |here| ensures here[p] <= here[q] {
      assert IsDeadlineHere(threads, parts, proc, q, here[q]);
      if here[q] != NEVER {
        var j: nat :| CanRun(threads, parts, proc, q, j) && threads[j].ddl == here[q];
      }
    }
  }

  lemma LeastIsEarliest(threads: seq<Thread>, parts: seq<Part>, proc: nat, here: seq<nat>, p: nat, i: nat)
    requires AreDeadlinesHere(threads, parts, proc, here) && IsLeast(here, p) && parts[p].high <= |threads|
    requires IsEarliest(threads, parts[p].low, parts[p].high, proc, i)
    ensures IsEarliestOfAll(threads, parts, proc, p, i)
  {
    assert CanRun(threads, parts, proc, p, i);
    assert IsDeadlineHere(threads, parts, proc, p, here[p]);
    var first: nat :| CanRun(threads, parts, proc, p, first) && threads[first].ddl == here[p];
    forall q: nat, j: nat | CanRun(threads, parts, proc, q, j) ensures threads[i].ddl <= threads[j].ddl {
      assert IsDeadlineHere(threads, parts, proc, q, here[q]);
    }
  }

  /** In the terms of one partition. */
  lemma WithinPartition(threads: seq<Thread>, parts: seq<Part>, proc: nat, here: seq<nat>, p: nat)
    requires AreDeadlinesHere(threads, parts, proc, here) && p < |parts| && parts[p].high <= |threads|
    ensures SomebodyCanRun(threads, parts, proc) && IsLeast(here, p) ==>
              !NoneEligible(threads, parts[p].low, parts[p].high, proc)
    ensures NobodyAtZero(threads, parts, proc) ==> !HasZero(threads, parts[p].low, parts[p].high, proc)
  {
    assert forall j: nat | parts[p].low <= j < parts[p].high && Eligible(threads[j], proc) ::
        CanRun(threads, parts, proc, p, j);
    if SomebodyCanRun(threads, parts, proc) && IsLeast(here, p) {
      var q: nat, j: nat :| CanRun(threads, parts, proc, q, j);
      assert IsDeadlineHere(threads, parts, proc, q, here[q]);
      assert IsDeadlineHere(threads, parts, proc, p, here[p]);
      var first: nat :| CanRun(threads, parts, proc, p, first) && threads[first].ddl == here[p];
    }
  }

  /** On any number of processors, choosing a partition and then a thread in it elects a thread of the
      earliest deadline of all that can run on this processor if and only if there is one, none of them
      has deadline 0, and the partition of the earliest deadline over all processors also has the
      earliest on this one. */
  lemma TwoLevelsAreFlatIff(threads: seq<Thread>, parts: seq<Part>, deadlines: seq<nat>, here: seq<nat>,
                            current: nat, next: nat, from: nat, proc: nat, idle: nat, elected: nat)
    requires AreDeadlines(threads, parts, idle, deadlines) && AreDeadlinesHere(threads, parts, proc, here)
    requires current < |parts| && next < |parts| && parts[next].low <= from < parts[next].high
    requires IsChoice(deadlines, current, next)
    requires ElectedPedf(threads, parts[next].low, parts[next].high, from, proc, idle, elected)
    ensures IsEarliestOfAll(threads, parts, proc, next, elected) <==>
            && SomebodyCanRun(threads, parts, proc)
            && NobodyAtZero(threads, parts, proc)
            && ChoiceIsLeastHere(deadlines, current, here)
  {
    var low, high := parts[next].low, parts[next].high;
    EarliestIff(threads, low, high, from, proc, idle, elected);
    WithinPartition(threads, parts, proc, here, next);
    ChoiceIsNext(deadlines, current, here, next);
    hide Found;
    hide IsDeadline;
    hide AreDeadlinesHere;
    hide IsChoice;
    hide IsLeast;
    hide ChoiceIsLeastHere;
    hide HasZero;
    hide IsEarliest;
    hide NoneEligible;
    if IsEarliestOfAll(threads, parts, proc, next, elected) {
      EarliestIsLeast(threads, parts, proc, here, next, elected);
      assert threads[elected].ddl > 0;
    } else if SomebodyCanRun(threads, parts, proc) && NobodyAtZero(threads, parts, proc) && IsLeast(here, next) {
      LeastIsEarliest(threads, parts, proc, here, next, elected);
    }
  }

  lemma ChoiceIsNext(deadlines: seq<nat>, current: nat, here: seq<nat>, next: nat)
    requires IsChoice(deadlines, current, next)
    ensures ChoiceIsLeastHere(deadlines, current, here) <==> IsLeast(here, next)
  {
    hide IsLeast;
    forall p: nat | IsChoice(deadlines, current, p) ensures p == next {
      OneChoice(deadlines, current, p, next);
    }
  }

  /** It is not always so: on processor 0 the choice can prefer the partition of a thread that runs on
      processor 1. */
  lemma OtherProcessorMisleads(t: Thread, current: nat)
    ensures var a := t.(state := Runnable, affinity := 1, ddl := 1);
            var b, c := a.(affinity := 0, ddl := 9), a.(affinity := 0, ddl := 5);
            var threads, parts := [a, b, c, t], [Part(0, 2), Part(2, 3)];
            && AreDeadlines(threads, parts, 3, [1, 5]) && AreDeadlinesHere(threads, parts, 0, [9, 5])
            && SomebodyCanRun(threads, parts, 0) && NobodyAtZero(threads, parts, 0)
            && !ChoiceIsLeastHere([1, 5], current, [9, 5])
  {
    var a := t.(state := Runnable, affinity := 1, ddl := 1);
    var b, c := a.(affinity := 0, ddl := 9), a.(affinity := 0, ddl := 5);
    var threads, parts := [a, b, c, t], [Part(0, 2), Part(2, 3)];
    assert threads[0].state == Runnable && threads[0].ddl == 1 && threads[2].state == Runnable && threads[2].ddl == 5;
    assert IsDeadline(threads, 0, 2, 1) && IsDeadline(threads, 2, 3, 5);
    assert CanRun(threads, parts, 0, 0, 1) && CanRun(threads, parts, 0, 1, 2);
    var deadlines, here := [1, 5], [9, 5];
    assert deadlines[0] < deadlines[1] && here[1] < here[0];
    assert IsChoice(deadlines, current, 0) && !IsLeast(here, 0);
  }

  /** One processor: whoever is runnable can run on it. */
  ghost predicate OneProcessor(threads: seq<Thread>, proc: nat) {
    forall j | 0 <= j < |threads| && threads[j].state == Runnable ::
      threads[j].affinity == proc && threads[j].ddl <= UINT64_MAX
  }

  lemma DeadlineBounds(threads: seq<Thread>, parts: seq<Part>, idle: nat, deadlines: seq<nat>, proc: nat, p: nat,
      j: nat)
    requires AreDeadlines(threads, parts, idle, deadlines) && OneProcessor(threads, proc)
    requires CanRun(threads, parts, proc, p, j)
    ensures deadlines[p] <= threads[j].ddl <= UINT64_MAX
  {
  }

  lemma DeadlineIsReached(threads: seq<Thread>, parts: seq<Part>, idle: nat, deadlines: seq<nat>, proc: nat, p: nat)
    returns (j: nat)
    requires AreDeadlines(threads, parts, idle, deadlines) && OneProcessor(threads, proc)
    requires p < |parts| && deadlines[p] < UINT64_MAX
    ensures CanRun(threads, parts, proc, p, j) && threads[j].ddl == deadlines[p]
  {
    assert IsDeadline(threads, parts[p].low, parts[p].high, deadlines[p]);
    j :| parts[p].low <= j < parts[p].high && threads[j].state == Runnable && threads[j].ddl == deadlines[p];
  }

  /** Somebody's deadline is below the maximum exactly if some partition's is. */
  lemma BelowMaximum(threads: seq<Thread>, parts: seq<Part>, idle: nat, deadlines: seq<nat>, proc: nat)
    requires AreDeadlines(threads, parts, idle, deadlines) && OneProcessor(threads, proc)
    ensures SomebodyBelowMaximum(threads, parts, proc)
            <==> exists p :: 0 <= p < |deadlines| && deadlines[p] < UINT64_MAX
  {
    hide IsDeadline;
    hide OneProcessor;
    if p: nat :| p < |deadlines| && deadlines[p] < UINT64_MAX {
      var j := DeadlineIsReached(threads, parts, idle, deadlines, proc, p);
    }
    forall p: nat, j: nat | CanRun(threads, parts, proc, p, j)
      ensures p < |deadlines| && deadlines[p] <= threads[j].ddl
    {
      DeadlineBounds(threads, parts, idle, deadlines, proc, p, j);
    }
  }

  lemma NextCanRun(threads: seq<Thread>, parts: seq<Part>, deadlines: seq<nat>, current: nat, next: nat,
                   proc: nat, idle: nat) returns (j: nat)
    requires AreDeadlines(threads, parts, idle, deadlines) && OneProcessor(threads, proc)
    requires next < |parts| && IsChoice(deadlines, current, next)
    requires SomebodyBelowMaximum(threads, parts, proc) || exists j: nat :: CanRun(threads, parts, proc, current, j)
    ensures CanRun(threads, parts, proc, next, j)
  {
    hide IsDeadline;
    hide OneProcessor;
    BelowMaximum(threads, parts, idle, deadlines, proc);
    if SomebodyBelowMaximum(threads, parts, proc) {
      j := DeadlineIsReached(threads, parts, idle, deadlines, proc, next);
    } else {
      j :| CanRun(threads, parts, proc, current, j);
    }
  }

  lemma EarliestThereIsEarliest(threads: seq<Thread>, parts: seq<Part>, deadlines: seq<nat>, current: nat, next: nat,
                                proc: nat, idle: nat, i: nat)
    requires AreDeadlines(threads, parts, idle, deadlines) && OneProcessor(threads, proc)
    requires next < |parts| && IsChoice(deadlines, current, next)
    requires IsEarliest(threads, parts[next].low, parts[next].high, proc, i)
    ensures IsEarliestOfAll(threads, parts, proc, next, i)
  {
    hide IsDeadline;
    hide OneProcessor;
    assert CanRun(threads, parts, proc, next, i);
    DeadlineBounds(threads, parts, idle, deadlines, proc, next, i);
    if deadlines[next] < UINT64_MAX {
      var first := DeadlineIsReached(threads, parts, idle, deadlines, proc, next);
    }
    forall q: nat, j: nat | CanRun(threads, parts, proc, q, j) ensures threads[i].ddl <= threads[j].ddl {
      DeadlineBounds(threads, parts, idle, deadlines, proc, q, j);
    }
  }

  /** On one processor, choosing a partition and then a thread in it elects a thread of the earliest
      deadline of all partitions if and only if somebody can run, nobody that can has deadline 0, and
      somebody's deadline is below the maximum or the partition that was current has somebody that can
      run. */
  lemma OneProcessorIsFlatIff(threads: seq<Thread>, parts: seq<Part>, deadlines: seq<nat>, current: nat, next: nat,
                              from: nat, proc: nat, idle: nat, elected: nat)
    requires AreDeadlines(threads, parts, idle, deadlines) && OneProcessor(threads, proc)
    requires current < |parts| && next < |parts| && parts[next].low <= from < parts[next].high
    requires IsChoice(deadlines, current, next)
    requires ElectedPedf(threads, parts[next].low, parts[next].high, from, proc, idle, elected)
    ensures IsEarliestOfAll(threads, parts, proc, next, elected) <==>
            && SomebodyCanRun(threads, parts, proc)
            && NobodyAtZero(threads, parts, proc)
            && (SomebodyBelowMaximum(threads, parts, proc) || exists j: nat :: CanRun(threads, parts, proc, current, j))
  {
    hide IsDeadline;
    hide OneProcessor;
    hide Found;
    var low, high := parts[next].low, parts[next].high;
    EarliestIff(threads, low, high, from, proc, idle, elected);
    BelowMaximum(threads, parts, idle, deadlines, proc);
    if IsEarliestOfAll(threads, parts, proc, next, elected) {
      assert threads[elected].ddl > 0;
    } else if NobodyAtZero(threads, parts, proc) &&
              (SomebodyBelowMaximum(threads, parts, proc) || exists j: nat :: CanRun(threads, parts, proc,
                  current, j)) {
      var j := NextCanRun(threads, parts, deadlines, current, next, proc, idle);
      assert forall i: nat | low <= i < high && Eligible(threads[i], proc) :: CanRun(threads, parts, proc, next, i);
      EarliestThereIsEarliest(threads, parts, deadlines, current, next, proc, idle, elected);
    }
  }
}
