/** Weighted round robin, and its fairness over runs: `pok_sched_part_wrr`, kernel/core/sched.c,
    lines 892-973. */
module WeightedRoundRobin {
  import opened Threads

  /** What an election reads of a thread: whether it may be elected, the two other parts of the test
      that lets it continue, its weight and its slice. */
  datatype Entry = Entry(eligible: bool, runnable: bool, hasCapacity: bool, weight: nat, slice: nat)

  function EntryOf(t: Thread, proc: nat): Entry {
    Entry(Eligible(t, proc), t.state == Runnable, t.remainingTimeCapacity > 0, t.weight, t.remainingTimeslice)
  }

  function EntriesOf(threads: seq<Thread>, proc: nat): (e: seq<Entry>)
    ensures |e| == |threads|
  {
    seq(|threads|, i requires 0 <= i < |threads| => EntryOf(threads[i], proc))
  }

  /** The threads of a list that may be elected. */
  function Ready(e: seq<Entry>, list: seq<nat>): (r: seq<nat>)
    requires forall k | 0 <= k < |list| :: list[k] < |e|
    ensures forall k | 0 <= k < |r| :: r[k] < |e| && e[r[k]].eligible
  {
    if list == [] then [] else
    var last := list[|list| - 1];
    Ready(e, list[..|list| - 1]) + if e[last].eligible then [last] else []
  }

  /** The indices that the scan tests: those after `from`, cyclically, and `from` itself only if
      there is no other. From the idle thread it tests all. */
  function Tested(low: nat, high: nat, from: nat): (c: seq<nat>)
    requires low < high
    ensures forall k | 0 <= k < |c| :: low <= c[k] < high
  {
    if low <= from < high then
      if high - low == 1 then [low] else Cycle(low, high, from)[1..]
    else
      Range(low, high)
  }

  ghost predicate Arguments(size: nat, low: nat, high: nat, prev: nat, cur: nat, idle: nat) {
    && low < high <= idle < size
    && (cur == idle || low <= cur < high)
    && (prev == idle || low <= prev < high)
  }

  ghost predicate SomeEligible(threads: seq<Thread>, low: nat, high: nat, proc: nat)
    requires high <= |threads|
  {
    exists i :: low <= i < high && Eligible(threads[i], proc)
  }

  /** Where a scan begins. */
  function Start(low: nat, high: nat, from: nat, idle: nat): nat {
    if from == idle then low else Following(from, low, high)
  }

  /** The index that a scan reaches in `k` steps. */
  function At(low: nat, high: nat, start: nat, k: nat): (i: nat)
    requires low <= start < high
    ensures low <= i < high
  {
    if k == 0 then start else Following(At(low, high, start, k - 1), low, high)
  }

  /** A scan that has reached `i` goes no further. */
  ghost predicate Stops(threads: seq<Thread>, low: nat, high: nat, from: nat, proc: nat, i: nat)
    requires low <= i < high <= |threads|
  {
    Eligible(threads[i], proc) || Following(i, low, high) == from
  }

  /** The scan ends. */
  ghost predicate ScanEnds(threads: seq<Thread>, low: nat, high: nat, from: nat, idle: nat, proc: nat)
    requires low < high <= idle < |threads| && (low <= from < high || from == idle)
  {
    exists k: nat :: Stops(threads, low, high, from, proc, At(low, high, Start(low, high, from, idle), k))
  }

  lemma {:induction false} AtRange(low: nat, high: nat, k: nat)
    requires low + k < high
    ensures At(low, high, low, k) == low + k
  {
    if k > 0 {
      AtRange(low, high, k - 1);
    }
  }

  lemma {:induction false} AtCycle(low: nat, high: nat, from: nat, k: nat)
    requires low <= from < high && k + 1 < high - low
    ensures At(low, high, Following(from, low, high), k) == Cycle(low, high, from)[k + 1]
  {
    CycleStep(low, high, from, k);
    if k > 0 {
      AtCycle(low, high, from, k - 1);
    }
  }

  /** The scan ends if and only if it starts from a thread of the partition, or some thread of the
      partition can be elected. From the idle thread, with nobody to elect, it goes on for ever. */
  lemma ScanEndsIff(threads: seq<Thread>, low: nat, high: nat, from: nat, idle: nat, proc: nat)
    requires low < high <= idle < |threads| && (low <= from < high || from == idle)
    ensures ScanEnds(threads, low, high, from, idle, proc)
            <==> from != idle || SomeEligible(threads, low, high, proc)
  {
    if from != idle {
      var k: nat := if high - low == 1 then 0 else high - low - 2;
      if high - low > 1 {
        AtCycle(low, high, from, k);
        CycleStep(low, high, from, k + 1);
      }
      assert Stops(threads, low, high, from, proc, At(low, high, Start(low, high, from, idle), k));
    } else if SomeEligible(threads, low, high, proc) {
      var i :| low <= i < high && Eligible(threads[i], proc);
      AtRange(low, high, i - low);
      assert Stops(threads, low, high, from, proc, At(low, high, Start(low, high, from, idle), i - low));
    }
  }

  function Charged(t: Entry): Entry {
    if t.slice > 0 then t.(slice := t.slice - 1) else t
  }

  /** The current thread keeps the processor. */
  predicate Continues(t: Entry) {
    t.runnable && t.hasCapacity && Charged(t).slice > 0
  }

  /** One election: who is elected, and what becomes of the slice of the current thread. */
  function Elect(e: seq<Entry>, low: nat, high: nat, prev: nat, cur: nat, idle: nat): (r: (Entry, nat))
    requires Arguments(|e|, low, high, prev, cur, idle)
    ensures r.1 == idle || Local(r.1, low, high)
  {
    ReadyFrom(e, Tested(low, high, if cur != idle then cur else prev), low, high);
    var t := Charged(e[cur]);
    if Continues(e[cur]) then (t, cur) else
    var refilled := if cur != idle then t.(slice := t.weight) else t;
    var ready := Ready(e, Tested(low, high, if cur != idle then cur else prev));
    if ready != [] then (refilled, ready[0])
    else if cur != idle && t.eligible then (refilled, cur)
    else (refilled, idle)
  }

  lemma {:induction false} ReadyConcat(e: seq<Entry>, a: seq<nat>, b: seq<nat>)
    requires forall k | 0 <= k < |a| :: a[k] < |e|
    requires forall k | 0 <= k < |b| :: b[k] < |e|
    ensures Ready(e, a + b) == Ready(e, a) + Ready(e, b)
  {
    if b == [] {
      assert a + b == a;
    } else {
      ReadyConcat(e, a, b[..|b| - 1]);
      assert (a + b)[..|a + b| - 1] == a + b[..|b| - 1];
    }
  }

  lemma ReadySingle(e: seq<Entry>, i: nat)
    requires i < |e|
    ensures Ready(e, [i]) == if e[i].eligible then [i] else []
  {
    assert [i][..0] == [];
  }

  lemma {:induction false} ReadyFrom(e: seq<Entry>, list: seq<nat>, low: nat, high: nat)
    requires forall k | 0 <= k < |list| :: list[k] < |e|
    requires forall k | 0 <= k < |list| :: low <= list[k] < high
    ensures forall k | 0 <= k < |Ready(e, list)| :: low <= Ready(e, list)[k] < high
  {
    if list != [] {
      ReadyFrom(e, list[..|list| - 1], low, high);
    }
  }

  /** The first of a list that may be elected is the first ready one. */
  lemma FirstReady(e: seq<Entry>, list: seq<nat>, k: nat)
    requires forall i | 0 <= i < |list| :: list[i] < |e|
    requires k < |list| && e[list[k]].eligible && Ready(e, list[..k]) == []
    ensures Ready(e, list) != [] && Ready(e, list)[0] == list[k]
  {
    hide Ready;
    assert list == list[..k + 1] + list[k + 1..] && list[..k + 1] == list[..k] + [list[k]];
    ReadyConcat(e, list[..k + 1], list[k + 1..]);
    ReadyConcat(e, list[..k], [list[k]]);
    ReadySingle(e, list[k]);
  }

  lemma {:induction false} ReadyHas(e: seq<Entry>, list: seq<nat>, i: nat)
    requires forall k | 0 <= k < |list| :: list[k] < |e|
    requires i in list && e[i].eligible
    ensures i in Ready(e, list)
  {
    if i != list[|list| - 1] {
      ReadyHas(e, list[..|list| - 1], i);
    }
  }

  lemma EntryAt(threads: seq<Thread>, proc: nat, i: nat)
    requires i < |threads|
    ensures var t, e := threads[i], EntriesOf(threads, proc)[i];
            && (e.eligible <==> t.state == Runnable && t.affinity == proc) && (e.runnable <==> t.state == Runnable)
            && (e.hasCapacity <==> t.remainingTimeCapacity > 0)
            && e.weight == t.weight && e.slice == t.remainingTimeslice
  {
  }

  lemma TestedStep(low: nat, high: nat, from: nat, k: nat)
    requires low < high && k < |Tested(low, high, from)|
    ensures var c := Tested(low, high, from);
            var next := if c[k] + 1 >= high then low else c[k] + 1;
            && (k == 0 ==> c[k] == if low <= from < high && from + 1 < high then from + 1 else low)
            && (k + 1 < |c| ==> c[k + 1] == next != from)
            && (k + 1 == |c| ==> next == if low <= from < high then from else low)
            && (k + 1 < |c| && !(low <= from < high) ==> next != low)
  {
    if low <= from < high && high - low > 1 {
      CycleStep(low, high, from, k);
      CycleStep(low, high, from, k + 1);
    }
  }

  /** A scan has met nobody among the first `k`. */
  ghost predicate NobodyYet(e: seq<Entry>, list: seq<nat>, k: nat)
    requires forall i | 0 <= i < |list| :: list[i] < |e|
  {
    k <= |list| && Ready(e, list[..k]) == []
  }

  lemma ScanStep(e: seq<Entry>, list: seq<nat>, k: nat)
    requires forall i | 0 <= i < |list| :: list[i] < |e|
    requires k < |list| && NobodyYet(e, list, k)
    ensures e[list[k]].eligible ==> Ready(e, list) != [] && Ready(e, list)[0] == list[k]
    ensures !e[list[k]].eligible ==> NobodyYet(e, list, k + 1)
    ensures !e[list[k]].eligible && k + 1 == |list| ==> Ready(e, list) == []
  {
    assert list[..k + 1][..k] == list[..k];
    assert k + 1 == |list| ==> list[..k + 1] == list;
    if e[list[k]].eligible {
      FirstReady(e, list, k);
    }
  }

  lemma ScanStart(e: seq<Entry>, list: seq<nat>)
    requires forall i | 0 <= i < |list| :: list[i] < |e|
    ensures NobodyYet(e, list, 0)
  {
  }

  lemma TestsAll(e: seq<Entry>, low: nat, high: nat, from: nat)
    requires low < high <= |e| && !(low <= from < high)
    requires exists i :: low <= i < high && e[i].eligible
    ensures Ready(e, Tested(low, high, from)) != []
  {
    var i :| low <= i < high && e[i].eligible;
    assert Range(low, high)[i - low] == i;
    ReadyHas(e, Tested(low, high, from), i);
  }

  lemma NoEntry(threads: seq<Thread>, proc: nat, low: nat, high: nat, from: nat)
    requires low < high <= |threads| && !(low <= from < high)
    ensures SomeEligible(threads, low, high, proc)
            <==> Ready(EntriesOf(threads, proc), Tested(low, high, from)) != []
  {
    var e := EntriesOf(threads, proc);
    if SomeEligible(threads, low, high, proc) {
      var i :| low <= i < high && Eligible(threads[i], proc);
      assert e[i].eligible;
      TestsAll(e, low, high, from);
    }
    if Ready(e, Tested(low, high, from)) != [] {
      ReadyFrom(e, Tested(low, high, from), low, high);
      var i := Ready(e, Tested(low, high, from))[0];
      assert low <= i < high && Eligible(threads[i], proc);
    }
  }

  /** The scan: lines 914-943. The loop of the source does not end if a scan from the idle thread
      meets nobody: `endless` stands for that. The scan is then where it began. */
  method FindNext(threads: array<Thread>, low: nat, high: nat, from: nat, idle: nat, proc: nat)
    returns (endless: bool, found: bool, i: nat)
    requires low < high <= idle < threads.Length && (low <= from < high || from == idle)
    ensures endless <==> !ScanEnds(threads[..], low, high, from, idle, proc)
    ensures var ready := Ready(EntriesOf(threads[..], proc), Tested(low, high, from));
            (found <==> ready != []) && (found ==> i == ready[0])
  {
    ghost var e, tested := EntriesOf(threads[..], proc), Tested(low, high, from);
    if from == idle {
      NoEntry(threads[..], proc, low, high, from);
    }
    ScanEndsIff(threads[..], low, high, from, idle, proc);
    hide *;
    TestedStep(low, high, from, 0);
    ScanStart(e, tested);
    i := from;
    if i == idle {
      i := low;
    } else {
      i := i + 1;
      if i >= high {
        i := low;
      }
    }
    ghost var k := 0;
    var again := true;
    endless := false;
    while again
      invariant 0 <= k <= |tested| && NobodyYet(e, tested, k)
      invariant if again then k < |tested| && i == tested[k] else Ready(e, tested) == []
      invariant endless <==> !again && from == idle
      decreases |tested| - k
    {
      ScanStep(e, tested, k);
      TestedStep(low, high, from, k);
      EntryAt(threads[..], proc, i);
      if threads[i].state == Runnable && threads[i].affinity == proc && i != idle {
        return false, true, i;
      }
      i := i + 1;
      if i >= high {
        i := low;
      }
      k := k + 1;
      again := i != from;
      if from == idle && i == low {
        again, endless := false, true;
      }
    }
    found := false;
  }

  lemma {:induction false} ReadyDependsOnEligible(e: seq<Entry>, e': seq<Entry>, list: seq<nat>)
    requires |e| == |e'| && forall k | 0 <= k < |list| :: list[k] < |e|
    requires forall i | 0 <= i < |e| :: e[i].eligible == e'[i].eligible
    ensures Ready(e, list) == Ready(e', list)
  {
    if list != [] {
      ReadyDependsOnEligible(e, e', list[..|list| - 1]);
    }
  }

  lemma SameReady(threads: seq<Thread>, cur: nat, slice: nat, proc: nat, list: seq<nat>)
    requires cur < |threads| && forall k | 0 <= k < |list| :: list[k] < |threads|
    ensures Ready(EntriesOf(threads, proc), list)
            == Ready(EntriesOf(WithSlice(threads, cur, slice), proc), list)
  {
    var threads' := WithSlice(threads, cur, slice);
    forall i | 0 <= i < |threads|
      ensures EntriesOf(threads, proc)[i].eligible == EntriesOf(threads', proc)[i].eligible
    {
      EntryAt(threads, proc, i);
      EntryAt(threads', proc, i);
    }
    ReadyDependsOnEligible(EntriesOf(threads, proc), EntriesOf(threads', proc), list);
  }

  lemma SameEnd(threads: seq<Thread>, low: nat, high: nat, from: nat, idle: nat, cur: nat, slice: nat, proc: nat)
    requires low < high <= idle < |threads| && (low <= from < high || from == idle) && cur < |threads|
    ensures ScanEnds(WithSlice(threads, cur, slice), low, high, from, idle, proc)
            <==> ScanEnds(threads, low, high, from, idle, proc)
  {
    var threads' := WithSlice(threads, cur, slice);
    ScanEndsIff(threads, low, high, from, idle, proc);
    ScanEndsIff(threads', low, high, from, idle, proc);
    hide ScanEnds;
    assert forall i | low <= i < high :: Eligible(threads'[i], proc) == Eligible(threads[i], proc);
  }

  /** The turn goes on to the next thread: lines 914-972. */
  method Rotate(threads: array<Thread>, low: nat, high: nat, prev: nat, cur: nat, idle: nat, proc: nat)
    returns (endless: bool, elected: nat)
    requires Arguments(threads.Length, low, high, prev, cur, idle)
    modifies threads
    ensures endless <==> !ScanEnds(old(threads[..]), low, high, if cur != idle then cur else prev, idle, proc)
    ensures var ready := Ready(old(EntriesOf(threads[..], proc)), Tested(low, high, if cur != idle then cur else prev));
            !endless ==> elected == if ready != [] then ready[0]
                                    else if cur != idle && Eligible(old(threads[cur]), proc) then cur else idle
    ensures threads[..] == if cur == idle then old(threads[..])
                           else WithSlice(old(threads[..]), cur, old(threads[cur]).weight)
  {
    var from := if cur != idle then cur else prev;
    ScanEndsIff(threads[..], low, high, from, idle, proc);
    hide Ready;
    hide Tested;
    hide EntriesOf;
    hide SomeEligible;
    hide ScanEnds;
    var found, i;
    endless, found, i := FindNext(threads, low, high, from, idle, proc);
    if endless {
      return true, idle;
    }
    if found {
      if cur != idle {
        SetSlice(threads, cur, threads[cur].weight);
      }
      return false, i;
    }
    if threads[cur].state == Runnable && threads[cur].affinity == proc && cur != idle {
      SetSlice(threads, cur, threads[cur].weight);
      return false, cur;
    }
    if cur != idle {
      SetSlice(threads, cur, threads[cur].weight);
    }
    elected := idle;
  }

  lemma ElectIs(e: seq<Entry>, low: nat, high: nat, prev: nat, cur: nat, idle: nat)
    requires Arguments(|e|, low, high, prev, cur, idle)
    ensures var t := e[cur];
            var left := if t.slice > 0 then t.slice - 1 else 0;
            var ready := Ready(e, Tested(low, high, if cur != idle then cur else prev));
            && (Continues(t) <==> t.runnable && t.hasCapacity && left > 0)
            && Elect(e, low, high, prev, cur, idle) ==
               if Continues(t) then (t.(slice := left), cur)
               else (t.(slice := if cur != idle then t.weight else left),
                     if ready != [] then ready[0] else if cur != idle && t.eligible then cur else idle)
  {
    hide Tested;
    hide Ready;
  }

  /** `pok_sched_part_wrr`. Unless the current thread goes on, and unless the scan never ends, it
      returns what `Elect` says; the slices become what it says in any case. */
  method ElectWrr(threads: array<Thread>, low: nat, high: nat, prev: nat, cur: nat, idle: nat, proc: nat)
    returns (endless: bool, elected: nat)
    requires Arguments(threads.Length, low, high, prev, cur, idle)
    modifies threads
    ensures endless <==> && !Continues(EntryOf(old(threads[cur]), proc))
                         && !ScanEnds(old(threads[..]), low, high, if cur != idle then cur else prev, idle, proc)
    ensures var (t, res) := Elect(old(EntriesOf(threads[..], proc)), low, high, prev, cur, idle);
            && (!endless ==> elected == res)
            && threads[..] == WithSlice(old(threads[..]), cur, t.slice)
  {
    ghost var s, e := threads[..], EntriesOf(threads[..], proc);
    var from := if cur != idle then cur else prev;
    ElectIs(e, low, high, prev, cur, idle);
    EntryAt(s, proc, cur);
    hide Elect;
    hide EntriesOf;
    hide Ready;
    hide Tested;
    hide ScanEnds;
    hide Continues;
    if threads[cur].remainingTimeslice > 0 {
      SetSlice(threads, cur, threads[cur].remainingTimeslice - 1);
    }
    ghost var left := threads[cur].remainingTimeslice;
    assert threads[..] == WithSlice(s, cur, left);
    if threads[cur].state == Runnable && threads[cur].remainingTimeCapacity > 0 &&
       threads[cur].remainingTimeslice > 0 {
      return false, cur;
    }
    SameReady(s, cur, left, proc, Tested(low, high, from));
    SameEnd(s, low, high, from, idle, cur, left, proc);
    endless, elected := Rotate(threads, low, high, prev, cur, idle, proc);
  }

  /** From the idle thread the scan starts behind `prev` and never tests `prev` itself, unless the
      partition has no other thread: idle goes on although `prev` could run. */
  lemma IdleOverlooksPrevious(e: seq<Entry>, low: nat, high: nat, prev: nat, idle: nat)
    requires Arguments(|e|, low, high, prev, idle, idle) && low <= prev < high && high - low > 1
    requires !e[idle].hasCapacity
    ensures Elect(e, low, high, prev, idle, idle).1 == idle
            <==> forall i | low <= i < high && i != prev :: !e[i].eligible
  {
    hide Ready;
    hide Tested;
    var tested := Tested(low, high, prev);
    ElectIs(e, low, high, prev, idle, idle);
    ReadyFrom(e, tested, low, high);
    TestedOthers(low, high, prev);
    forall i | low <= i < high && i != prev && e[i].eligible ensures Ready(e, tested) != [] {
      ReadyHas(e, tested, i);
    }
    ReadyAmong(e, tested);
  }

  lemma TestedOthers(low: nat, high: nat, from: nat)
    requires low <= from < high && high - low > 1
    ensures forall i | low <= i < high :: i in Tested(low, high, from) <==> i != from
  {
    var c := Cycle(low, high, from);
    forall i | low <= i < high ensures i in Tested(low, high, from) <==> i != from {
      CycleHas(low, high, from, i);
      assert c == [c[0]] + c[1..] && c[0] == from;
      assert forall k | 0 <= k < |c[1..]| :: c[1..][k] == c[k + 1] != from;
    }
  }

  lemma {:induction false} ReadyAmong(e: seq<Entry>, list: seq<nat>)
    requires forall k | 0 <= k < |list| :: list[k] < |e|
    ensures forall i | i in Ready(e, list) :: i in list && e[i].eligible
  {
    if list != [] {
      ReadyAmong(e, list[..|list| - 1]);
    }
  }
}
