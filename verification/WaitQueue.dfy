/** What a wait queue of threads means: a sequence, its first element the next one served. */
module WaitQueue {

  /** The place of a newcomer: before the first thread of lower priority. */
  function Place(queue: seq<nat>, t: nat, priority: nat -> nat): (i: nat)
    ensures i <= |queue|
    ensures forall k | 0 <= k < i :: priority(t) <= priority(queue[k])
    ensures i < |queue| ==> priority(queue[i]) < priority(t)
  {
    if queue == [] || priority(queue[0]) < priority(t) then 0
    else 1 + Place(queue[1..], t, priority)
  }

  function InsertByPriority(queue: seq<nat>, t: nat, priority: nat -> nat): seq<nat> {
    var i := Place(queue, t, priority);
    queue[..i] + [t] + queue[i..]
  }

  function RemoveFirst(queue: seq<nat>, t: nat): seq<nat> {
    if queue == [] then []
    else if queue[0] == t then queue[1..]
    else [queue[0]] + RemoveFirst(queue[1..], t)
  }

  ghost predicate Descending(queue: seq<nat>, priority: nat -> nat) {
    forall i, j | 0 <= i < j < |queue| :: priority(queue[j]) <= priority(queue[i])
  }

  /** Threads of one priority, in order of service. */
  function OfPriority(queue: seq<nat>, p: nat, priority: nat -> nat): seq<nat> {
    if queue == [] then []
    else (if priority(queue[0]) == p then [queue[0]] else []) + OfPriority(queue[1..], p, priority)
  }

  lemma {:induction false} OfPriorityConcat(a: seq<nat>, b: seq<nat>, p: nat, priority: nat -> nat)
    ensures OfPriority(a + b, p, priority) == OfPriority(a, p, priority) + OfPriority(b, p, priority)
  {
    if a == [] {
      assert a + b == b;
    } else {
      OfPriorityConcat(a[1..], b, p, priority);
      assert (a + b)[1..] == a[1..] + b;
      var first := if priority(a[0]) == p then [a[0]] else [];
      assert first + (OfPriority(a[1..], p, priority) + OfPriority(b, p, priority))
          == first + OfPriority(a[1..], p, priority) + OfPriority(b, p, priority);
    }
  }

  lemma {:induction false} NoneOfPriority(a: seq<nat>, p: nat, priority: nat -> nat)
    requires forall i | 0 <= i < |a| :: priority(a[i]) != p
    ensures OfPriority(a, p, priority) == []
  {
    if a != [] {
      NoneOfPriority(a[1..], p, priority);
    }
  }

  /** Insertion keeps the queue in descending priority order. */
  lemma InsertKeepsOrder(queue: seq<nat>, t: nat, priority: nat -> nat)
    requires Descending(queue, priority)
    ensures Descending(InsertByPriority(queue, t, priority), priority)
  {
    hide Place;
    var i, after := Place(queue, t, priority), InsertByPriority(queue, t, priority);
    forall a, b | 0 <= a < b < |after|
      ensures priority(after[b]) <= priority(after[a])
    {
      var a', b' := if a < i then a else a - 1, if b < i then b else b - 1;
      if a != i && b != i {
        assert after[a] == queue[a'] && after[b] == queue[b'];
      } else if b == i {
        assert after[b] == t && after[a] == queue[a];
      } else {
        assert after[a] == t && after[b] == queue[b'];
        assert b' == i || priority(queue[b']) <= priority(queue[i]);
      }
    }
  }

  lemma InsertAddsOne(queue: seq<nat>, t: nat, priority: nat -> nat)
    ensures multiset(InsertByPriority(queue, t, priority)) == multiset(queue) + multiset{t}
  {
    hide Place;
    var i := Place(queue, t, priority);
    assert queue == queue[..i] + queue[i..];
  }

  /** Insertion is stable: the newcomer becomes the last of its priority, and every class of
      equal priority keeps its order. */
  lemma InsertIsStable(queue: seq<nat>, t: nat, priority: nat -> nat, p: nat)
    requires Descending(queue, priority)
    ensures OfPriority(InsertByPriority(queue, t, priority), p, priority)
            == OfPriority(queue, p, priority) + (if priority(t) == p then [t] else [])
  {
    hide Place;
    hide OfPriority;
    var i := Place(queue, t, priority);
    var front, back := queue[..i], queue[i..];
    assert queue == front + back;
    OfPriorityConcat(front, back, p, priority);
    OfPriorityConcat(front + [t], back, p, priority);
    OfPriorityConcat(front, [t], p, priority);
    OfPrioritySingle(t, p, priority);
    if priority(t) == p {
      NoneAbove(queue, t, priority);
      NoneOfPriority(back, p, priority);
    }
  }

  lemma OfPrioritySingle(t: nat, p: nat, priority: nat -> nat)
    ensures OfPriority([t], p, priority) == if priority(t) == p then [t] else []
  {
    assert [t][1..] == [];
  }

  lemma NoneAbove(queue: seq<nat>, t: nat, priority: nat -> nat)
    requires Descending(queue, priority)
    ensures forall k | Place(queue, t, priority) <= k < |queue| :: priority(queue[k]) < priority(t)
  {
    hide Place;
    var i := Place(queue, t, priority);
    forall k | i <= k < |queue| ensures priority(queue[k]) < priority(t) {
      assert k == i || priority(queue[k]) <= priority(queue[i]);
    }
  }

  /** Where the first occurrence is. */
  lemma {:induction false} RemoveAt(queue: seq<nat>, t: nat, k: nat)
    requires k < |queue| && queue[k] == t && t !in queue[..k]
    ensures RemoveFirst(queue, t) == queue[..k] + queue[k + 1..]
  {
    if k > 0 {
      assert queue[0] in queue[..k];
      assert queue[1..][..k - 1] == queue[..k][1..];
      RemoveAt(queue[1..], t, k - 1);
      assert queue[1..][k..] == queue[k + 1..];
      assert queue[..k] == [queue[0]] + queue[1..k];
    }
  }

  lemma {:induction false} RemoveAbsent(queue: seq<nat>, t: nat)
    requires t !in queue
    ensures RemoveFirst(queue, t) == queue
  {
    if queue != [] {
      RemoveAbsent(queue[1..], t);
    }
  }

  ghost predicate Distinct(queue: seq<nat>) {
    forall i, j | 0 <= i < j < |queue| :: queue[i] != queue[j]
  }

  lemma {:induction false} DistinctBound(queue: seq<nat>, n: nat)
    requires Distinct(queue) && forall i | 0 <= i < |queue| :: queue[i] < n
    ensures |queue| <= n
    decreases n
  {
    if queue != [] {
      assert queue[0] < n;
      if k :| 0 <= k < |queue| && queue[k] == n - 1 {
        DistinctBound(queue[..k] + queue[k + 1..], n - 1);
      } else {
        DistinctBound(queue, n - 1);
      }
    }
  }

  /** Pigeonhole: distinct thread numbers below `n`, one of them absent, leave a free place. */
  lemma RoomForNewcomer(queue: seq<nat>, n: nat, t: nat)
    requires Distinct(queue) && t !in queue && t < n
    requires forall i | 0 <= i < |queue| :: queue[i] < n
    ensures |queue| < n
  {
    DistinctBound(queue + [t], n);
  }

  /** Queues of distinct threads stay so, and hold whom they should. */
  lemma InsertDistinct(queue: seq<nat>, t: nat, priority: nat -> nat)
    requires Distinct(queue) && t !in queue
    ensures Distinct(InsertByPriority(queue, t, priority))
    ensures forall x :: x in InsertByPriority(queue, t, priority) <==> x in queue || x == t
  {
    hide Place;
    var i := Place(queue, t, priority);
    assert queue == queue[..i] + queue[i..];
  }

  lemma RemoveDistinct(queue: seq<nat>, t: nat)
    requires Distinct(queue)
    ensures Distinct(RemoveFirst(queue, t))
    ensures forall x :: x in RemoveFirst(queue, t) <==> x in queue && x != t
  {
    hide RemoveFirst;
    if k :| 0 <= k < |queue| && queue[k] == t {
      RemoveAt(queue, t, k);
      assert queue == queue[..k] + [t] + queue[k + 1..];
    } else {
      RemoveAbsent(queue, t);
    }
  }
}
