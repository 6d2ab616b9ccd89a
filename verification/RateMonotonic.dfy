/** Rate monotonic scheduling: threads kept in order of their periods as they are created
    (kernel/core/thread.c, lines 54-65, 152-160, 172-175 and 232-238), and the scan that relies on
    it (`pok_sched_part_rms`, kernel/core/sched.c, lines 622-649). */
module RateMonotonic {
  import opened Threads

  const TWO_63: nat := 0x8000_0000_0000_0000
  const TWO_64: nat := 0x1_0000_0000_0000_0000

  /** The signed period of a thread created with the unsigned attribute `attr`, over the one its
      entry has. The infinite attribute, all ones, becomes -1. */
  function PeriodFrom(attr: nat, entry: int): (period: int)
    ensures attr == 0 ==> period == entry
    ensures 0 < attr < TWO_64 ==> 0 <= TWO_63 + period && period < TWO_63 && (period - attr) % TWO_64 == 0
  {
    if attr == 0 then entry else if attr < TWO_63 then attr else attr - TWO_64
  }

  ghost predicate Sorted(s: seq<Thread>) {
    forall i, j | 0 <= i < j < |s| :: s[i].period <= s[j].period
  }

  /** Insertion from the end, past the threads of longer periods. */
  function Insert(s: seq<Thread>, t: Thread): seq<Thread> {
    if s == [] || s[|s| - 1].period <= t.period then s + [t]
    else Insert(s[..|s| - 1], t) + [s[|s| - 1]]
  }

  /** Where the inserted thread lands. */
  function Place(s: seq<Thread>, t: Thread): (k: nat)
    ensures k <= |s|
  {
    if s == [] || s[|s| - 1].period <= t.period then |s| else Place(s[..|s| - 1], t)
  }

  lemma {:induction false} InsertIs(s: seq<Thread>, t: Thread)
    ensures Insert(s, t) == s[..Place(s, t)] + [t] + s[Place(s, t)..]
    ensures forall i | Place(s, t) <= i < |s| :: s[i].period > t.period
    ensures Place(s, t) > 0 ==> s[Place(s, t) - 1].period <= t.period
  {
    if s != [] && s[|s| - 1].period > t.period {
      var rest, k := s[..|s| - 1], Place(s, t);
      InsertIs(rest, t);
      assert s[k..] == rest[k..] + [s[|s| - 1]];
      assert s[..k] == rest[..k];
    }
  }

  /** There is one place that fits. */
  lemma {:induction false} PlaceIs(s: seq<Thread>, t: Thread, k: nat)
    requires k <= |s| && forall i | k <= i < |s| :: s[i].period > t.period
    requires k > 0 ==> s[k - 1].period <= t.period
    ensures Place(s, t) == k
  {
    if k < |s| {
      PlaceIs(s[..|s| - 1], t, k);
    }
  }

  lemma SpliceIsSorted(s: seq<Thread>, t: Thread, k: nat)
    requires Sorted(s) && k <= |s|
    requires forall i | 0 <= i < k :: s[i].period <= t.period
    requires forall i | k <= i < |s| :: t.period <= s[i].period
    ensures Sorted(s[..k] + [t] + s[k..])
  {
    var r := s[..k] + [t] + s[k..];
    forall i, j | 0 <= i < j < |r| ensures r[i].period <= r[j].period {
      assert r[i] == if i < k then s[i] else if i == k then t else s[i - 1];
      assert r[j] == if j < k then s[j] else if j == k then t else s[j - 1];
    }
  }

  lemma SpliceAddsOne<T>(s: seq<T>, t: T, k: nat)
    requires k <= |s|
    ensures multiset(s[..k] + [t] + s[k..]) == multiset(s) + multiset{t}
  {
    assert s == s[..k] + s[k..];
  }

  /** Inserting keeps the order, adds exactly the new thread, and puts it behind those of the same
      period. */
  lemma InsertKeepsSorted(s: seq<Thread>, t: Thread)
    requires Sorted(s)
    ensures Sorted(Insert(s, t))
    ensures multiset(Insert(s, t)) == multiset(s) + multiset{t}
    ensures forall i | 0 <= i < |s| :: i < Place(s, t) <==> s[i].period <= t.period
  {
    hide Insert;
    hide Place;
    InsertIs(s, t);
    SpliceIsSorted(s, t, Place(s, t));
    SpliceAddsOne(s, t, Place(s, t));
  }

  /** The identifier handed out before the sort still names the new thread exactly if no thread
      that was there has a longer period. */
  lemma StaysLastIff(s: seq<Thread>, t: Thread)
    requires Sorted(s)
    ensures Place(s, t) == |s| <==> forall i | 0 <= i < |s| :: s[i].period <= t.period
  {
    InsertIs(s, t);
  }

  lemma Inserted(s: seq<Thread>, t: Thread, k: nat)
    requires k <= |s| && forall i | k <= i < |s| :: s[i].period > t.period
    requires k > 0 ==> s[k - 1].period <= t.period
    ensures Insert(s, t) == s[..k] + [t] + s[k..]
  {
    PlaceIs(s, t, k);
    InsertIs(s, t);
  }

  lemma Spliced<T>(s: seq<T>, s': seq<T>, low: nat, k: nat, high: nat, t: T)
    requires low + k <= high < |s| == |s'| && s'[low + k] == t
    requires forall m | low <= m < low + k :: s'[m] == s[m]
    requires forall m | low + k < m <= high :: s'[m] == s[m - 1]
    ensures s'[low..high + 1] == s[low..high][..k] + [t] + s[low..high][k..]
  {
    var r := s[low..high][..k] + [t] + s[low..high][k..];
    forall i | 0 <= i < high + 1 - low ensures s'[low..high + 1][i] == r[i] {
      if i > k {
        assert r[i] == s[low..high][i - 1];
      }
    }
  }

  /** The table when the loop has found the place `k` of the new thread. */
  lemma InsertedInTable(s: seq<Thread>, s': seq<Thread>, low: nat, k: nat, high: nat, t: Thread)
    requires low + k <= high < |s| == |s'| && s'[low + k] == t
    requires forall m | low <= m < low + k :: s'[m] == s[m]
    requires forall m | low + k < m <= high :: s'[m] == s[m - 1]
    requires forall m | low + k <= m < high :: s[m].period > t.period
    requires k > 0 ==> s[low + k - 1].period <= t.period
    ensures s'[low..high + 1] == Insert(s[low..high], t)
  {
    hide Insert;
    var segment := s[low..high];
    assert forall m | 0 <= m < |segment| :: segment[m] == s[low + m];
    Inserted(segment, t, k);
    Spliced(s, s', low, k, high, t);
  }

  /** `pok_thread_insert_sort`. */
  method InsertSort(threads: array<Thread>, indexLow: nat, indexHigh: nat)
    requires 1 <= indexLow <= indexHigh < threads.Length
    modifies threads
    ensures threads[indexLow..indexHigh + 1] == Insert(old(threads[indexLow..indexHigh]), old(threads[indexHigh]))
    ensures forall m | 0 <= m < indexLow || indexHigh < m < threads.Length :: threads[m] == old(threads[m])
  {
    hide Insert;
    ghost var s := threads[..];
    var i := indexHigh;
    var val := threads[i];
    var j := i - 1;
    while j >= indexLow && threads[j].period > val.period
      invariant indexLow - 1 <= j < i
      invariant forall m | 0 <= m <= j || i < m < threads.Length :: threads[m] == s[m]
      invariant forall m | j + 1 < m <= i :: threads[m] == s[m - 1]
      invariant forall m | j < m < i :: s[m].period > val.period
    {
      threads[j + 1] := threads[j];
      j := j - 1;
    }
    assert j >= indexLow ==> s[j].period <= val.period;
    threads[j + 1] := val;
    InsertedInTable(s, threads[..], indexLow, j + 1 - indexLow, i, val);
    assert threads[indexLow..i + 1] == threads[..][indexLow..i + 1];
  }

  /** Behind the main thread, the threads created so far are arranged by their periods. */
  ghost predicate InOrder(s: seq<Thread>, low: nat, created: seq<Thread>)
    requires low + |created| <= |s|
  {
    created != [] ==>
      && s[low] == created[0]
      && Sorted(s[low + 1..low + |created|])
      && multiset(s[low + 1..low + |created|]) == multiset(created[1..])
  }

  lemma FirstInOrder(s: seq<Thread>, low: nat)
    requires low < |s|
    ensures InOrder(s, low, [s[low]])
  {
  }

  lemma NextInOrder(s: seq<Thread>, s': seq<Thread>, low: nat, created: seq<Thread>, t: Thread)
    requires created != [] && low + |created| < |s| == |s'| && InOrder(s, low, created)
    requires s'[low] == s[low]
    requires s'[low + 1..low + |created| + 1] == Insert(s[low + 1..low + |created|], t)
    ensures InOrder(s', low, created + [t])
  {
    hide Insert;
    hide Sorted;
    InsertKeepsSorted(s[low + 1..low + |created|], t);
    assert (created + [t])[1..] == created[1..] + [t];
  }

  /** `pok_sched_part_rms`: the first thread behind the main one that can run, else the main one. */
  method ElectRms(threads: array<Thread>, low: nat, high: nat, idle: nat, proc: nat) returns (res: nat)
    requires low < high <= idle < threads.Length
    ensures res == idle <==> NoneEligible(threads[..], low, high, proc)
    ensures res != idle ==> low <= res < high && Eligible(threads[res], proc)
    ensures res == low ==> forall i | low < i < high :: !Eligible(threads[i], proc)
    ensures res != low ==> forall i | low < i < res && i < high :: !Eligible(threads[i], proc)
  {
    res := low + 1;
    if res >= high {
      res := low;
    }
    while res != low && (threads[res].state != Runnable || threads[res].affinity != proc)
      invariant low <= res < high
      invariant forall i | low < i < (if res == low then high else res) :: !Eligible(threads[i], proc)
      decreases if res == low then 0 else high - res
    {
      res := res + 1;
      if res >= high {
        res := low;
      }
    }
    if res == low && (threads[res].state != Runnable || threads[res].affinity != proc) {
      res := idle;
    }
  }

  /** Nobody behind the main thread that can run has a shorter period. */
  ghost predicate IsShortest(threads: seq<Thread>, low: nat, high: nat, proc: nat, res: nat)
    requires res < |threads| && high <= |threads|
  {
    forall i | low < i < high && Eligible(threads[i], proc) :: threads[res].period <= threads[i].period
  }

  /** Over entries in the order that `Create` keeps, of which `n` is the first that is not used, that
      thread is one of shortest period if and only if no unused entry that can run, left over from
      before a restart, has a shorter one. */
  lemma FirstIsShortestIff(threads: seq<Thread>, low: nat, n: nat, high: nat, proc: nat, res: nat)
    requires low < res < high <= |threads| && low < n <= high
    requires Sorted(threads[low + 1..n])
    requires Eligible(threads[res], proc) && forall i | low < i < res :: !Eligible(threads[i], proc)
    ensures IsShortest(threads, low, high, proc, res)
            <==> forall i | n <= i < high && Eligible(threads[i], proc) :: threads[res].period <= threads[i].period
  {
    var used := threads[low + 1..n];
    forall i | low < i < n && Eligible(threads[i], proc) ensures threads[res].period <= threads[i].period {
      assert used[i - (low + 1)] == threads[i] && used[res - (low + 1)] == threads[res];
    }
  }

  /** The threads of a partition while they are created. The first is the main thread; `created`
      lists them in the order of their creation. */
  class Partition {
    const threads: array<Thread>
    const low: nat
    const high: nat
    var index: nat
    ghost var created: seq<Thread>

    ghost predicate Valid()
      reads this, threads
    {
      && low < high <= threads.Length && index == |created| <= high - low
      && InOrder(threads[..], low, created)
    }

    constructor (table: array<Thread>, first: nat, last: nat)
      requires first < last <= table.Length
      ensures Valid() && threads == table && low == first && high == last && created == []
    {
      threads := table;
      low := first;
      high := last;
      index := 0;
      created := [];
    }

    /** The part of `pok_partition_thread_create` that finds an entry, fills it and sorts it in.
        `id` is what the caller gets; it is fixed before the sort. */
    method Create(t: Thread) returns (ok: bool, id: nat)
      requires Valid()
      modifies this, threads
      ensures Valid() && (ok <==> old(index) < high - low)
      ensures !ok ==> threads[..] == old(threads[..]) && created == old(created)
      ensures ok ==> created == old(created) + [t] && id == low + old(index)
      ensures ok && id > low ==>
                && threads[low + 1..id + 1] == Insert(old(threads[low + 1..id]), t)
                && forall m | 0 <= m <= low || id < m < threads.Length :: threads[m] == old(threads[m])
    {
      hide Insert;
      hide InOrder;
      id := low + index;
      if id >= high {
        return false, id;
      }
      index := index + 1;
      threads[id] := t;
      if id > low {
        assert threads[low + 1..id] == old(threads[low + 1..id]);
        InsertSort(threads, low + 1, id);
        NextInOrder(old(threads[..]), threads[..], low, created, t);
      } else {
        FirstInOrder(threads[..], low);
        assert created + [t] == [threads[low]];
      }
      created := created + [t];
      ok := true;
    }

    /** `pok_partition_reinit`: creation begins anew, and the threads stay in the table as they are. */
    method Restart()
      requires Valid()
      modifies this
      ensures Valid() && created == [] && threads[..] == old(threads[..])
    {
      index := 0;
      created := [];
    }

    /** What creation leaves for the elections: used entries sorted by period behind the main thread. */
    ghost predicate Arranged()
      reads this, threads
    {
      low < high <= threads.Length && index <= high - low && (index > 0 ==> Sorted(threads[low + 1..low + index]))
    }

    /** Nobody that can run is left over from before a restart. */
    ghost predicate NobodyLeftOver(proc: nat)
      requires high <= threads.Length
      reads this, threads
    {
      forall i | low + index <= i < high :: !Eligible(threads[i], proc)
    }

    lemma CreatedIsArranged()
      requires Valid()
      ensures Arranged()
    {
    }

    /** The threads may run, wait and stop: only their periods matter. */
    twostate lemma StaysArranged()
      requires old(Arranged()) && index == old(index)
      requires forall i | low <= i < high :: threads[i].period == old(threads[i].period)
      ensures Arranged()
    {
      if index > 0 {
        var was, now := old(threads[low + 1..low + index]), threads[low + 1..low + index];
        assert forall k | 0 <= k < |now| :: now[k].period == was[k].period;
      }
    }

    /** Rate monotonic scheduling of a partition whose threads `Create` has arranged: the first of those
        behind the main thread that can run, and one of the shortest period of them if and only if no
        thread left over from before a restart can run with a shorter one; so always, if the partition
        has not been restarted. */
    method Elect(idle: nat, proc: nat) returns (res: nat)
      requires Arranged() && index > 0 && high <= idle < threads.Length
      ensures res == idle <==> NoneEligible(threads[..], low, high, proc)
      ensures res != idle ==> low <= res < high && Eligible(threads[res], proc)
      ensures res == low ==> forall i | low < i < high :: !Eligible(threads[i], proc)
      ensures low < res < high ==> forall i | low < i < high && Eligible(threads[i], proc) :: res <= i
      ensures low < res < high ==>
                (IsShortest(threads[..], low, high, proc, res)
                 <==> forall i | low + index <= i < high && Eligible(threads[i], proc) ::
                        threads[res].period <= threads[i].period)
      ensures low < res < high && NobodyLeftOver(proc) ==> IsShortest(threads[..], low, high, proc, res)
    {
      res := ElectRms(threads, low, high, idle, proc);
      if low < res < high {
        FirstIsShortestIff(threads[..], low, low + index, high, proc, res);
      }
    }
  }

  /** In the order of a partition, a thread of infinite period comes before every periodic one. */
  lemma InfinitePeriodFirst(s: seq<Thread>, t: Thread, entry: int, i: nat)
    requires Sorted(s) && t.period == PeriodFrom(TWO_64 - 1, entry)
    requires i < |s| && s[i].period > 0
    ensures Place(s, t) <= i
  {
    hide Insert;
    hide Place;
    InsertKeepsSorted(s, t);
  }
}
