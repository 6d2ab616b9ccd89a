/** The circular buffer of waiting threads: kernel/core/lockobj.c:430-503. */
module LockFifo {
  import opened RingBuffer
  import opened WaitQueue

  datatype Status = Ok | Full | Empty | NotFound

  lemma {:induction false} PlaceIs(queue: seq<nat>, t: nat, priority: nat -> nat, k: nat)
    requires k <= |queue|
    requires forall p | 0 <= p < k :: priority(t) <= priority(queue[p])
    requires k < |queue| ==> priority(queue[k]) < priority(t)
    ensures Place(queue, t, priority) == k
  {
    if k > 0 {
      assert priority(t) <= priority(queue[0]);
      PlaceIs(queue[1..], t, priority, k - 1);
    }
  }

  /** `u` after the elements from `m` up to `l` have moved one place on. */
  function Shifted(u: seq<nat>, m: nat, l: nat): (r: seq<nat>)
    requires m <= l < |u|
    ensures |r| == |u| && (m > 0 ==> r[m - 1] == u[m - 1])
  {
    u[..m + 1] + u[m..l] + u[l + 1..]
  }

  lemma ShiftOne(u: seq<nat>, m: nat, l: nat)
    requires 0 < m <= l < |u|
    ensures Shifted(u, m, l)[m := u[m - 1]] == Shifted(u, m - 1, l)
  {
  }

  /** `u` after the elements behind `k` up to `m` have moved one place forward. */
  function Closed(u: seq<nat>, k: nat, m: nat): (r: seq<nat>)
    requires k <= m < |u|
    ensures |r| == |u| && (m + 1 < |u| ==> r[m + 1] == u[m + 1])
  {
    u[..k] + u[k + 1..m + 1] + u[m..]
  }

  lemma CloseOne(u: seq<nat>, k: nat, m: nat)
    requires k <= m && m + 1 < |u|
    ensures Closed(u, k, m)[m := u[m + 1]] == Closed(u, k, m + 1)
  {
  }

  lemma NothingShifted(u: seq<nat>, l: nat)
    requires l < |u|
    ensures Shifted(u, l, l) == u
  {
  }

  lemma NothingClosed(u: seq<nat>, k: nat)
    requires k < |u|
    ensures Closed(u, k, k) == u
  {
  }

  lemma InsertedPrefix(u: seq<nat>, k: nat, l: nat, t: nat)
    requires k <= l < |u|
    ensures Shifted(u, k, l)[k := t][..l + 1] == u[..l][..k] + [t] + u[..l][k..]
  {
  }

  lemma InsertedContents(u: seq<nat>, queue: seq<nat>, t: nat, priority: nat -> nat, k: nat)
    requires u != [] && queue <= u
    requires k == if |queue| == |u| then 0 else Place(queue, t, priority)
    ensures var l := if |queue| == |u| then 0 else |queue|;
            k <= l < |u| && Shifted(u, k, l)[k := t][..l + 1] ==
            if |queue| == |u| then [t] else InsertByPriority(queue, t, priority)
  {
    hide Place;
    hide Shifted;
    if |queue| == |u| {
      InsertedPrefix(u, 0, 0, t);
    } else {
      assert u[..|queue|] == queue;
      InsertedPrefix(u, k, |queue|, t);
    }
  }

  lemma FirstDropped(u: seq<nat>, u': seq<nat>, l: nat)
    requires 0 < l <= |u| == |u'| && u' == u[1..] + [u[0]]
    ensures u'[..l - 1] == u[..l][1..]
  {
  }

  lemma ClosedPrefix(u: seq<nat>, k: nat, l: nat)
    requires k <= l < |u|
    ensures Closed(u, k, l)[..l] == u[..l + 1][..k] + u[..l + 1][k + 1..]
  {
  }

  class Fifo {
    var head: nat
    var last: nat
    var isEmpty: bool
    const buffer: array<nat>

    ghost predicate Valid()
      reads this
    {
      head < buffer.Length && last < buffer.Length && (isEmpty ==> head == last)
    }

    ghost function Length(): (l: nat)
      requires Valid()
      reads this
      ensures l <= buffer.Length && Slot(head, l, buffer.Length) == last
      ensures l == 0 <==> isEmpty
    {
      if isEmpty then 0
      else if head < last then last - head
      else last - head + buffer.Length
    }

    /** The whole buffer read from the head on. */
    ghost function Ring(): (u: seq<nat>)
      requires head < buffer.Length
      reads this, buffer
      ensures |u| == buffer.Length
    {
      Unroll(buffer[..], head)
    }

    /** The waiting threads, the next one to be served first. */
    ghost function Contents(): (q: seq<nat>)
      requires Valid()
      reads this, buffer
      ensures |q| == Length()
    {
      Ring()[..Length()]
    }

    /** Writing the slot `p` places after the head. */
    method Write(i: nat, v: nat, ghost p: nat)
      requires head < buffer.Length && p < buffer.Length && i == Slot(head, p, buffer.Length)
      modifies buffer
      ensures Ring() == old(Ring())[p := v]
    {
      UnrollUpdate(buffer[..], head, p, v);
      ghost var before := buffer[..];
      buffer[i] := v;
      assert buffer[..] == before[i := v];
    }

    /** `pok_lockobj_fifo_init` on a buffer for `n` threads. */
    constructor (n: nat)
      requires n > 0
      ensures Valid() && Contents() == [] && buffer.Length == n && fresh(buffer)
    {
      buffer := new nat[n];
      head, last, isEmpty := 0, 0, true;
    }

    method GetHead() returns (t: nat)
      requires Valid() && !isEmpty
      ensures t == Contents()[0]
    {
      t := buffer[head];
    }

    method EnqueueLast(t: nat) returns (status: Status)
      requires Valid()
      modifies this, buffer
      ensures Valid()
      ensures status == if |old(Contents())| == buffer.Length then Full else Ok
      ensures Contents() == if status == Ok then old(Contents()) + [t] else old(Contents())
    {
      if !isEmpty && last == head {
        return Full;
      }
      Write(last, t, Length());
      last := Next(last, buffer.Length);
      isEmpty := false;
      status := Ok;
    }

    /** The scan for the first waiter of lower priority, lockobj.c:447-451. On a full buffer it
        stops at once, because `last` is `head`. */
    method FindPlace(t: nat, priority: nat -> nat) returns (i: nat, ghost k: nat)
      requires Valid()
      ensures k == if |Contents()| == buffer.Length then 0 else Place(Contents(), t, priority)
      ensures i == Slot(head, k, buffer.Length) && i < buffer.Length
    {
      ghost var queue, n := Contents(), buffer.Length;
      i, k := head, 0;
      while i != last && priority(t) <= priority(buffer[i])
        invariant 0 <= k <= |queue| && i == Slot(head, k, n) && i < n
        invariant |queue| == n ==> k == 0
        invariant forall p | 0 <= p < k :: priority(t) <= priority(queue[p])
        decreases |queue| - k
      {
        assert queue[k] == buffer[i];
        i := Next(i, buffer.Length);
        k := k + 1;
      }
      if |queue| < n {
        assert k < |queue| ==> queue[k] == buffer[i];
        PlaceIs(queue, t, priority, k);
      }
    }

    /** The loop that moves the waiters behind `i` one place on, lockobj.c:452-455. */
    method ShiftBehind(i: nat, ghost k: nat, ghost l: nat)
      requires head < buffer.Length && k <= l < buffer.Length
      requires i == Slot(head, k, buffer.Length) && last == Slot(head, l, buffer.Length)
      modifies buffer
      ensures Ring() == Shifted(old(Ring()), k, l)
    {
      hide Unroll;
      hide Shifted;
      ghost var u, n := Ring(), buffer.Length;
      var j := last;
      ghost var m := l;
      NothingShifted(u, l);
      while j != i
        invariant k <= m <= l && j == Slot(head, m, n) && j < n
        invariant Ring() == Shifted(u, m, l)
        modifies buffer
        decreases m
      {
        var before := Previous(j, buffer.Length);
        assert before == Slot(head, m - 1, n);
        ShiftOne(u, m, l);
        Write(j, buffer[before], m);
        j := before;
        m := m - 1;
      }
    }

    /** Insertion by priority. The source does not test for a full buffer: on one it overwrites
        the head and forgets every other waiter. */
    method EnqueueByPriority(t: nat, priority: nat -> nat)
      requires Valid()
      modifies this, buffer
      ensures Valid() && head == old(head)
      ensures Contents() == if |old(Contents())| == buffer.Length then [t]
                            else InsertByPriority(old(Contents()), t, priority)
    {
      hide Unroll;
      hide Shifted;
      hide InsertByPriority;
      hide Place;
      ghost var u, queue := Ring(), Contents();
      var i, k := FindPlace(t, priority);
      ghost var l := if |queue| == buffer.Length then 0 else |queue|;
      ShiftBehind(i, k, l);
      Write(i, t, k);
      InsertedContents(u, queue, t, priority, k);
      isEmpty := false;
      last := Next(last, buffer.Length);
      assert Length() == l + 1;
    }

    method Dequeue() returns (status: Status)
      requires Valid()
      modifies this
      ensures Valid()
      ensures status == if old(isEmpty) then Empty else Ok
      ensures Contents() == if status == Ok then old(Contents())[1..] else old(Contents())
    {
      hide Unroll;
      if isEmpty {
        return Empty;
      }
      ghost var u, l := Ring(), Length();
      UnrollNext(buffer[..], head);
      head := Next(head, buffer.Length);
      if last == head {
        isEmpty := true;
      }
      status := Ok;
      assert Length() == l - 1;
      FirstDropped(u, Ring(), l);
    }

    /** The scan of `pok_lockobj_remove_thread`, lockobj.c:484-494, on a buffer that is not
        empty: the index of the first occurrence, if there is one. */
    method FindThread(t: nat) returns (found: bool, i: nat, ghost k: nat)
      requires Valid() && !isEmpty
      ensures found <==> t in Contents()
      ensures found ==> && k < |Contents()| && Contents()[k] == t && t !in Contents()[..k]
                        && i == Slot(head, k, buffer.Length) && i < buffer.Length
    {
      ghost var queue, n := Contents(), buffer.Length;
      i, k, found := head, 0, false;
      while true
        invariant 0 <= k < |queue| && i == Slot(head, k, n) && i < n
        invariant t !in queue[..k] && !found
        decreases |queue| - k
      {
        assert queue[k] == buffer[i];
        assert queue[..k + 1] == queue[..k] + [queue[k]];
        if buffer[i] == t {
          found := true;
          break;
        }
        i := Next(i, buffer.Length);
        if i == last {
          assert queue[..k + 1] == queue;
          break;
        }
        k := k + 1;
      }
    }

    /** The loop that closes the gap at `i`, lockobj.c:496-499. */
    method CloseGap(i: nat, ghost k: nat, ghost l: nat)
      requires head < buffer.Length && k <= l < buffer.Length
      requires i == Slot(head, k, buffer.Length) && last == Slot(head, l, buffer.Length)
      modifies buffer
      ensures Ring() == Closed(old(Ring()), k, l)
    {
      hide Unroll;
      hide Closed;
      ghost var u, n := Ring(), buffer.Length;
      var gap := i;
      ghost var m := k;
      NothingClosed(u, k);
      while gap != last
        invariant k <= m <= l && gap == Slot(head, m, n) && gap < n
        invariant Ring() == Closed(u, k, m)
        modifies buffer
        decreases l - m
      {
        var after := Next(gap, buffer.Length);
        assert after == Slot(head, m + 1, n);
        CloseOne(u, k, m);
        Write(gap, buffer[after], m);
        gap := after;
        m := m + 1;
      }
    }

    method RemoveThread(t: nat) returns (status: Status)
      requires Valid()
      modifies this, buffer
      ensures Valid()
      ensures status == if t in old(Contents()) then Ok else NotFound
      ensures Contents() == RemoveFirst(old(Contents()), t)
    {
      hide Unroll;
      hide Closed;
      hide RemoveFirst;
      ghost var queue := Contents();
      if isEmpty {
        RemoveAbsent(queue, t);
        return NotFound;
      }
      var found, i, k := FindThread(t);
      if !found {
        RemoveAbsent(queue, t);
        return NotFound;
      }
      ghost var u, l := Ring(), |queue| - 1;
      last := Previous(last, buffer.Length);
      CloseGap(i, k, l);
      if last == head {
        isEmpty := true;
      }
      status := Ok;
      RemoveAt(queue, t, k);
      assert Length() == l && queue == u[..l + 1];
      ClosedPrefix(u, k, l);
    }
  }
}
