/** Flushing OUT ports into IN ports: kernel/middleware/portflushall.c. */
module PortFlush {
  import opened Partitions
  import opened PortLayout
  import opened PortRing
  import opened Ports

  /** `ports[p]` lists the ports of partition `p`, `destinations[i]` the global ports that port `i`
      feeds, and `local[g]` is the local port of a global one. */
  datatype Routing = Routing(ports: seq<seq<nat>>, destinations: seq<seq<nat>>, local: seq<nat>)

  ghost predicate Routes(r: Routing, nports: nat) {
    && |r.destinations| == nports
    && (forall p, i | 0 <= p < |r.ports| && 0 <= i < |r.ports[p]| :: r.ports[p][i] < nports)
    && (forall i, j | 0 <= i < nports && 0 <= j < |r.destinations[i]| :: r.destinations[i][j] < |r.local|)
    && (forall g | 0 <= g < |r.local| :: r.local[g] < nports)
  }

  ghost predicate InRange(list: seq<nat>, n: nat) {
    forall i | 0 <= i < |list| :: list[i] < n
  }

  predicate Pending(q: Queue) {
    q.direction == Out && q.contents != [] && q.mustBeFlushed
  }

  predicate Accepting(q: Queue) {
    q.ready && q.direction == In
  }

  function Drained(q: Queue): Queue {
    q.(contents := [], full := false, mustBeFlushed := false)
  }

  ghost predicate SameKind(q: Queue, q': Queue) {
    q'.size == q.size && q'.ready == q.ready && q'.direction == q.direction
  }

  /** The data of one source, written to each of its destinations in turn. */
  function Deliver(qs: seq<Queue>, d: seq<byte>, globals: seq<nat>, r: Routing): (qs': seq<Queue>)
    requires Routes(r, |qs|) && InRange(globals, |r.local|)
    ensures |qs'| == |qs| && forall i | 0 <= i < |qs| :: SameKind(qs[i], qs'[i])
  {
    if globals == [] then qs else
    var before := Deliver(qs, d, globals[..|globals| - 1], r);
    var t := r.local[globals[|globals| - 1]];
    if Accepting(before[t]) then before[t := Put(before[t], d)] else before
  }

  function FlushPort(qs: seq<Queue>, src: nat, r: Routing): (qs': seq<Queue>)
    requires Routes(r, |qs|) && src < |qs|
    ensures |qs'| == |qs| && forall i | 0 <= i < |qs| :: SameKind(qs[i], qs'[i])
  {
    if !Pending(qs[src]) then qs else
    var d := qs[src].contents;
    var delivered := Deliver(qs[src := Take(qs[src], |d|)], d, r.destinations[src], r);
    delivered[src := delivered[src].(mustBeFlushed := false)]
  }

  function FlushPorts(qs: seq<Queue>, list: seq<nat>, r: Routing): (qs': seq<Queue>)
    requires Routes(r, |qs|) && InRange(list, |qs|)
    ensures |qs'| == |qs| && forall i | 0 <= i < |qs| :: SameKind(qs[i], qs'[i])
  {
    if list == [] then qs else
    FlushPort(FlushPorts(qs, list[..|list| - 1], r), list[|list| - 1], r)
  }

  /** What reaches `p` from one source: its whole contents, once for each route to `p`. */
  function Copies(d: seq<byte>, globals: seq<nat>, r: Routing, p: nat): seq<byte>
    requires InRange(globals, |r.local|)
  {
    if globals == [] then [] else
    Copies(d, globals[..|globals| - 1], r, p) + if r.local[globals[|globals| - 1]] == p then d else []
  }

  /** What reaches `p` from a list of sources, in the order of the list; a source that is listed
      again has nothing left to send. */
  function Inflow(qs: seq<Queue>, list: seq<nat>, r: Routing, p: nat): seq<byte>
    requires Routes(r, |qs|) && InRange(list, |qs|)
  {
    if list == [] then [] else
    var rest, src := list[..|list| - 1], list[|list| - 1];
    Inflow(qs, rest, r, p) +
    if src !in rest && Pending(qs[src]) then Copies(qs[src].contents, r.destinations[src], r, p) else []
  }

  function Received(q: Queue, inflow: seq<byte>): Queue {
    if inflow == [] then q
    else q.(contents := q.contents + inflow, full := |q.contents| + |inflow| == q.size)
  }

  ghost predicate HasRoom(q: Queue, inflow: seq<byte>) {
    inflow != [] ==> !q.full && |q.contents| + |inflow| <= q.size
  }

  lemma ReceivedTwice(q: Queue, a: seq<byte>, b: seq<byte>)
    requires HasRoom(q, a + b)
    ensures HasRoom(q, a) && HasRoom(Received(q, a), b)
    ensures Received(Received(q, a), b) == Received(q, a + b)
  {
    assert b == [] ==> a + b == a;
    assert q.contents + a + b == q.contents + (a + b);
  }

  lemma PutReceives(q: Queue, sofar: seq<byte>, d: seq<byte>)
    requires q.ready && d != [] && HasRoom(q, sofar + d)
    ensures Put(Received(q, sofar), d) == Received(q, sofar + d)
  {
    ReceivedTwice(q, sofar, d);
  }

  lemma NothingReceived(q: Queue)
    ensures Received(q, []) == q
  {
  }

  /** While there is room, deliveries append; queues that are no IN ports are not touched. */
  lemma {:induction false} DeliverAt(qs: seq<Queue>, d: seq<byte>, globals: seq<nat>, r: Routing, p: nat)
    requires Routes(r, |qs|) && InRange(globals, |r.local|) && p < |qs| && d != []
    ensures !Accepting(qs[p]) ==> Deliver(qs, d, globals, r)[p] == qs[p]
    ensures var inflow := Copies(d, globals, r, p);
            Accepting(qs[p]) && HasRoom(qs[p], inflow) ==>
              Deliver(qs, d, globals, r)[p] == Received(qs[p], inflow)
  {
    hide Put;
    hide Received;
    hide HasRoom;
    if globals == [] {
      NothingReceived(qs[p]);
    } else {
      var rest := globals[..|globals| - 1];
      var sofar := Copies(d, rest, r, p);
      DeliverAt(qs, d, rest, r, p);
      if Accepting(qs[p]) && HasRoom(qs[p], sofar + d) {
        ReceivedTwice(qs[p], sofar, d);
        PutReceives(qs[p], sofar, d);
      }
      assert sofar + [] == sofar;
    }
  }

  /** How many of the destinations are port `p`. */
  function Routed(globals: seq<nat>, r: Routing, p: nat): nat
    requires InRange(globals, |r.local|)
  {
    |set i | 0 <= i < |globals| && r.local[globals[i]] == p|
  }

  function PutTimes(q: Queue, d: seq<byte>, n: nat): Queue {
    if n == 0 then q else Put(PutTimes(q, d, n - 1), d)
  }

  lemma RoutedNext(globals: seq<nat>, r: Routing, p: nat)
    requires globals != [] && InRange(globals, |r.local|)
    ensures var n := |globals| - 1;
            Routed(globals, r, p) == Routed(globals[..n], r, p) + if r.local[globals[n]] == p then 1 else 0
  {
    var n := |globals| - 1;
    var before := set i | 0 <= i < n && r.local[globals[..n][i]] == p;
    var all := set i | 0 <= i < |globals| && r.local[globals[i]] == p;
    assert n !in before;
    assert all == if r.local[globals[n]] == p then before + {n} else before;
  }

  /** A ready IN port gets the data once for each route to it, with or without room for it; nobody else
      gets anything. */
  lemma {:induction false} DeliverIs(qs: seq<Queue>, d: seq<byte>, globals: seq<nat>, r: Routing, p: nat)
    requires Routes(r, |qs|) && InRange(globals, |r.local|) && p < |qs|
    ensures Deliver(qs, d, globals, r)[p]
            == if qs[p].ready && qs[p].direction == In then PutTimes(qs[p], d, Routed(globals, r, p)) else qs[p]
  {
    hide Routed;
    hide Put;
    if globals == [] {
      NotRouted(r, p);
    } else {
      RoutedNext(globals, r, p);
      DeliverIs(qs, d, globals[..|globals| - 1], r, p);
    }
  }

  lemma NotRouted(r: Routing, p: nat)
    ensures Routed([], r, p) == 0
  {
  }

  lemma FlushPortAt(qs: seq<Queue>, src: nat, r: Routing, p: nat)
    requires Routes(r, |qs|) && src < |qs| && p < |qs|
    ensures var q, q' := qs[p], FlushPort(qs, src, r)[p];
            var inflow := if Pending(qs[src]) then Copies(qs[src].contents, r.destinations[src], r, p) else [];
            && (!Accepting(q) ==> q' == if p == src && Pending(q) then Drained(q) else q)
            && (Accepting(q) && HasRoom(q, inflow) ==>
                  q' == Received(q, inflow))
  {
    if Pending(qs[src]) {
      var d := qs[src].contents;
      var taken := qs[src := Take(qs[src], |d|)];
      DeliverAt(taken, d, r.destinations[src], r, p);
      DeliverAt(taken, d, r.destinations[src], r, src);
    }
  }

  /** A flush empties the pending sources among the listed ports; what is neither a pending source
      nor a ready IN port does not change. */
  lemma {:induction false} FlushDrains(qs: seq<Queue>, list: seq<nat>, r: Routing, p: nat)
    requires Routes(r, |qs|) && InRange(list, |qs|) && p < |qs| && !Accepting(qs[p])
    ensures FlushPorts(qs, list, r)[p] == if p in list && Pending(qs[p]) then Drained(qs[p]) else qs[p]
    ensures p in list && Pending(qs[p]) ==>
              FlushPorts(qs, list, r)[p] == qs[p].(contents := [], full := false, mustBeFlushed := false)
  {
    if list != [] {
      var rest, src := list[..|list| - 1], list[|list| - 1];
      FlushDrains(qs, rest, r, p);
      FlushPortAt(FlushPorts(qs, rest, r), src, r, p);
      assert p in list <==> p in rest || p == src;
      hide FlushPort;
      hide Copies;
    }
  }

  /** What is still pending at `src` when its turn comes. */
  lemma PendingInTurn(qs: seq<Queue>, rest: seq<nat>, r: Routing, src: nat)
    requires Routes(r, |qs|) && InRange(rest, |qs|) && src < |qs|
    ensures var q := FlushPorts(qs, rest, r)[src];
            && (Pending(q) <==> src !in rest && Pending(qs[src]))
            && (Pending(q) ==> q.contents == qs[src].contents)
  {
    if !Accepting(qs[src]) {
      FlushDrains(qs, rest, r, src);
    }
  }

  /** Every ready IN port with the room gets the whole contents of its sources, in order. */
  lemma {:induction false} FlushAppends(qs: seq<Queue>, list: seq<nat>, r: Routing, p: nat)
    requires Routes(r, |qs|) && InRange(list, |qs|) && p < |qs| && Accepting(qs[p])
    requires HasRoom(qs[p], Inflow(qs, list, r, p))
    ensures FlushPorts(qs, list, r)[p] == Received(qs[p], Inflow(qs, list, r, p))
  {
    if list != [] {
      var rest, src := list[..|list| - 1], list[|list| - 1];
      var from := if src !in rest && Pending(qs[src]) then Copies(qs[src].contents, r.destinations[src], r, p) else [];
      ReceivedTwice(qs[p], Inflow(qs, rest, r, p), from);
      FlushAppends(qs, rest, r, p);
      PendingInTurn(qs, rest, r, src);
      FlushPortAt(FlushPorts(qs, rest, r), src, r, p);
      hide FlushPort;
      hide Copies;
      hide Pending;
      hide Accepting;
      hide HasRoom;
      hide Received;
    }
  }

  /** What no delivery does: overfill a port, or change one that is full. */
  ghost predicate Contained(q: Queue, q': Queue) {
    && q'.size == q.size
    && (|q.contents| <= q.size ==> |q'.contents| <= q.size)
    && (q.full ==> q' == q)
  }

  lemma {:induction false} DeliverContains(qs: seq<Queue>, d: seq<byte>, globals: seq<nat>, r: Routing, p: nat)
    requires Routes(r, |qs|) && InRange(globals, |r.local|) && p < |qs|
    ensures Contained(qs[p], Deliver(qs, d, globals, r)[p])
  {
    if globals != [] {
      DeliverContains(qs, d, globals[..|globals| - 1], r, p);
    }
  }

  lemma {:induction false} FlushContains(qs: seq<Queue>, list: seq<nat>, r: Routing, p: nat)
    requires Routes(r, |qs|) && InRange(list, |qs|) && p < |qs| && Accepting(qs[p])
    ensures Contained(qs[p], FlushPorts(qs, list, r)[p])
  {
    if list != [] {
      var rest, src := list[..|list| - 1], list[|list| - 1];
      FlushContains(qs, rest, r, p);
      var before := FlushPorts(qs, rest, r);
      if Pending(before[src]) {
        var d := before[src].contents;
        DeliverContains(before[src := Take(before[src], |d|)], d, r.destinations[src], r, p);
      }
    }
  }

  /** A ready IN port gets the whole contents of its sources, in order and behind its own, if and only
      if it has the room for all of it. */
  lemma FlushAppendsIff(qs: seq<Queue>, list: seq<nat>, r: Routing, p: nat)
    requires Routes(r, |qs|) && InRange(list, |qs|) && p < |qs| && Accepting(qs[p])
    requires |qs[p].contents| <= qs[p].size
    ensures FlushPorts(qs, list, r)[p].contents == qs[p].contents + Inflow(qs, list, r, p)
            <==> HasRoom(qs[p], Inflow(qs, list, r, p))
    ensures var q, q', inflow := qs[p], FlushPorts(qs, list, r)[p], Inflow(qs, list, r, p);
            && (inflow == [] ==> q' == q)
            && (inflow != [] && !q.full && |q.contents| + |inflow| <= q.size ==>
                  q' == q.(contents := q.contents + inflow, full := |q.contents| + |inflow| == q.size))
  {
    hide FlushPorts;
    hide Inflow;
    var inflow := Inflow(qs, list, r, p);
    if HasRoom(qs[p], inflow) {
      FlushAppends(qs, list, r, p);
    } else {
      FlushContains(qs, list, r, p);
      assert |qs[p].contents + inflow| > |qs[p].contents|;
    }
  }

  lemma {:induction false} FlushPortsTogether(qs: seq<Queue>, a: seq<nat>, b: seq<nat>, r: Routing)
    requires Routes(r, |qs|) && InRange(a, |qs|) && InRange(b, |qs|)
    ensures FlushPorts(qs, a + b, r) == FlushPorts(FlushPorts(qs, a, r), b, r)
  {
    if b == [] {
      assert a + b == a;
    } else {
      FlushPortsTogether(qs, a, b[..|b| - 1], r);
      assert (a + b)[..|a + b| - 1] == a + b[..|b| - 1];
    }
  }

  lemma DeliverNothing(qs: seq<Queue>, d: seq<byte>, r: Routing)
    requires Routes(r, |qs|)
    ensures InRange([], |r.local|) && Deliver(qs, d, [], r) == qs
  {
  }

  lemma DeliverNext(qs: seq<Queue>, d: seq<byte>, globals: seq<nat>, r: Routing, j: nat)
    requires Routes(r, |qs|) && InRange(globals, |r.local|) && j < |globals|
    ensures InRange(globals[..j], |r.local|) && globals[j] < |r.local| && r.local[globals[j]] < |qs|
    ensures var before, t := Deliver(qs, d, globals[..j], r), r.local[globals[j]];
            Deliver(qs, d, globals[..j + 1], r)
            == if before[t].ready && before[t].direction == In then before[t := Put(before[t], d)] else before
  {
    hide Put;
    assert globals[..j + 1][..j] == globals[..j];
  }

  lemma KindAt(table: PortTable, i: nat)
    requires table.Valid() && i < |table.ports|
    ensures var q, p := table.Queues()[i], table.ports[i];
            q.ready == p.ready && q.direction == p.direction
  {
  }

  /** The inner loop, lines 94-113: what a destination answers is ignored. */
  method DeliverAll(table: PortTable, buffer: seq<byte>, globals: seq<nat>, r: Routing)
    requires table.Valid() && Routes(r, |table.ports|) && InRange(globals, |r.local|) && buffer != []
    modifies table`ports, table.data
    ensures table.Valid() && |table.ports| == |old(table.ports)|
    ensures table.Queues() == Deliver(old(table.Queues()), buffer, globals, r)
  {
    hide Deliver;
    hide Put;
    hide Routes;
    hide Layout;
    hide QueueOf;
    hide QueuesOf;
    var j := 0;
    DeliverNothing(table.Queues(), buffer, r);
    while j < |globals|
      invariant 0 <= j <= |globals| && table.Valid() && |table.ports| == |old(table.ports)|
      invariant table.Queues() == Deliver(old(table.Queues()), buffer, globals[..j], r)
      modifies table`ports, table.data
    {
      DeliverNext(old(table.Queues()), buffer, globals, r, j);
      var dest := r.local[globals[j]];
      KindAt(table, dest);
      if table.ports[dest].ready && table.ports[dest].direction == In {
        var _ := table.Write(dest, buffer);
      }
      j := j + 1;
    }
    assert globals[..j] == globals;
  }

  /** The body of the loop: lines 72-120. */
  method FlushOne(table: PortTable, src: nat, r: Routing)
    requires table.Valid() && Routes(r, |table.ports|) && src < |table.ports|
    modifies table`ports, table.data
    ensures table.Valid() && |table.ports| == |old(table.ports)|
    ensures table.Queues() == FlushPort(old(table.Queues()), src, r)
  {
    ghost var qs := table.Queues();
    assert Pending(qs[src]) <==>
           table.ports[src].direction == Out && !table.ports[src].empty && table.ports[src].mustBeFlushed;
    hide Layout;
    hide QueueOf;
    hide QueuesOf;
    hide Pending;
    hide Deliver;
    if table.ports[src].direction != Out {
      return;
    }
    if table.ports[src].empty {
      return;
    }
    if !table.ports[src].mustBeFlushed {
      return;
    }
    var len := table.ConsumedSize(src);
    var status, buffer := table.Get(src, len);
    if status != Ok {
      return;
    }
    assert buffer == qs[src].contents && table.Queues() == qs[src := Take(qs[src], |buffer|)];
    hide Read;
    hide Take;
    DeliverAll(table, buffer, r.destinations[src], r);
    table.SetMustBeFlushed(src, false);
  }

  /** `pok_port_flush_partition`. Waking the threads that wait on the ports belongs to the lock
      objects. */
  method FlushPartition(table: PortTable, pid: nat, r: Routing)
    requires table.Valid() && Routes(r, |table.ports|) && pid < |r.ports|
    modifies table`ports, table.data
    ensures table.Valid() && |table.ports| == |old(table.ports)|
    ensures table.Queues() == FlushPorts(old(table.Queues()), r.ports[pid], r)
  {
    hide FlushPort;
    hide Layout;
    hide QueuesOf;
    hide QueueOf;
    var list := r.ports[pid];
    var i := 0;
    while i < |list|
      invariant 0 <= i <= |list| && table.Valid() && |table.ports| == |old(table.ports)|
      invariant table.Queues() == FlushPorts(old(table.Queues()), list[..i], r)
      modifies table`ports, table.data
    {
      assert list[..i + 1][..i] == list[..i];
      FlushOne(table, list[i], r);
      i := i + 1;
    }
    assert list[..i] == list;
  }

  /** The ports of all partitions that run or idle, partition after partition. */
  function FlushedPorts(modes: seq<Mode>, r: Routing): (list: seq<nat>)
    requires |modes| <= |r.ports|
  {
    if modes == [] then [] else
    var p := |modes| - 1;
    FlushedPorts(modes[..p], r) + if modes[p] == Normal || modes[p] == Idle then r.ports[p] else []
  }

  lemma {:induction false} FlushedPortsInRange(modes: seq<Mode>, r: Routing, n: nat)
    requires |modes| <= |r.ports| && Routes(r, n)
    ensures InRange(FlushedPorts(modes, r), n)
  {
    if modes != [] {
      FlushedPortsInRange(modes[..|modes| - 1], r, n);
    }
  }

  /** Exactly the ports of partitions that run or idle. */
  lemma {:induction false} FlushedPortsAre(modes: seq<Mode>, r: Routing, p: nat)
    requires |modes| <= |r.ports|
    ensures p in FlushedPorts(modes, r)
            <==> exists i :: 0 <= i < |modes| && (modes[i] == Normal || modes[i] == Idle) && p in r.ports[i]
  {
    if modes != [] {
      var n := |modes| - 1;
      FlushedPortsAre(modes[..n], r, p);
      assert forall i | 0 <= i < n :: modes[..n][i] == modes[i];
    }
  }

  ghost predicate IsFlushed(modes: seq<Mode>, r: Routing, p: nat)
    requires |modes| <= |r.ports|
  {
    exists i :: 0 <= i < |modes| && (modes[i] == Normal || modes[i] == Idle) && p in r.ports[i]
  }

  /** What a flush of everything does to an OUT port: it is emptied, and needs no flush any more, if and
      only if it has been asked to be flushed, holds something, and belongs to a partition that runs or
      idles. */
  lemma FlushAllDrains(qs: seq<Queue>, modes: seq<Mode>, r: Routing, p: nat)
    requires Routes(r, |qs|) && |modes| == |r.ports| && p < |qs| && qs[p].direction == Out
    ensures InRange(FlushedPorts(modes, r), |qs|)
    ensures FlushPorts(qs, FlushedPorts(modes, r), r)[p] ==
            if IsFlushed(modes, r, p) && qs[p].contents != [] && qs[p].mustBeFlushed
            then qs[p].(contents := [], full := false, mustBeFlushed := false) else qs[p]
  {
    FlushedPortsInRange(modes, r, |qs|);
    FlushedPortsAre(modes, r, p);
    hide FlushPorts;
    FlushDrains(qs, FlushedPorts(modes, r), r, p);
  }

  lemma FlushNextPartition(qs: seq<Queue>, modes: seq<Mode>, p: nat, r: Routing)
    requires Routes(r, |qs|) && p < |modes| == |r.ports|
    ensures var before, after := FlushedPorts(modes[..p], r), FlushedPorts(modes[..p + 1], r);
            && InRange(before, |qs|) && InRange(after, |qs|) && InRange(r.ports[p], |qs|)
            && FlushPorts(qs, after, r) ==
               if modes[p] == Normal || modes[p] == Idle then FlushPorts(FlushPorts(qs, before, r), r.ports[p], r)
               else FlushPorts(qs, before, r)
  {
    assert modes[..p + 1][..p] == modes[..p];
    FlushedPortsInRange(modes[..p], r, |qs|);
    FlushedPortsInRange(modes[..p + 1], r, |qs|);
    FlushPortsTogether(qs, FlushedPorts(modes[..p], r), r.ports[p], r);
    hide FlushPorts;
    assert FlushedPorts(modes[..p], r) + [] == FlushedPorts(modes[..p], r);
  }

  lemma FlushNoPartition(qs: seq<Queue>, modes: seq<Mode>, r: Routing)
    requires Routes(r, |qs|)
    ensures var none := FlushedPorts(modes[..0], r); InRange(none, |qs|) && FlushPorts(qs, none, r) == qs
  {
  }

  /** `pok_port_flushall`. */
  method FlushAll(table: PortTable, modes: seq<Mode>, r: Routing)
    requires table.Valid() && Routes(r, |table.ports|) && |modes| == |r.ports|
    modifies table`ports, table.data
    ensures table.Valid() && |table.ports| == |old(table.ports)|
    ensures InRange(FlushedPorts(modes, r), |table.ports|)
    ensures table.Queues() == FlushPorts(old(table.Queues()), FlushedPorts(modes, r), r)
  {
    hide *;
    ghost var qs := table.Queues();
    FlushNoPartition(qs, modes, r);
    var p := 0;
    while p < |modes|
      invariant 0 <= p <= |modes| && table.Valid() && |table.ports| == |qs|
      invariant InRange(FlushedPorts(modes[..p], r), |qs|)
      invariant table.Queues() == FlushPorts(qs, FlushedPorts(modes[..p], r), r)
      modifies table`ports, table.data
    {
      FlushNextPartition(qs, modes, p, r);
      if modes[p] == Normal || modes[p] == Idle {
        FlushPartition(table, p, r);
      }
      p := p + 1;
    }
    assert modes[..p] == modes;
  }
}
