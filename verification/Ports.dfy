/** The queueing ports themselves: kernel/middleware/portutils.c, portcreate.c, portinit.c and
    queueinit.c, configured with queueing ports only. */
module Ports {
  import opened PortLayout
  import opened PortRing
  import opened RingBuffer

  datatype Status = Ok | WrongSize | Invalid | PortError | Exists | DivisionByZero

  /** A write on the queue alone: refused, or appended, or, when nothing keeps it from
      overrunning what is there, `Written`. */
  function Put(q: Queue, d: seq<byte>): Queue {
    if !q.ready || q.full || |d| > q.size then q
    else q.(contents := Written(q.contents, d, q.size), full := |q.contents| + |d| == q.size)
  }

  /** A read of no more than what is there. */
  function Take(q: Queue, n: nat): Queue
    requires n <= |q.contents|
  {
    q.(contents := q.contents[n..], full := q.full && n < |q.contents|)
  }

  /** A write that is not refused appends its bytes if and only if there is room for them. */
  lemma PutAppendsIff(q: Queue, d: seq<byte>)
    requires q.ready && d != []
    ensures Put(q, d).contents == q.contents + d <==> !q.full && |q.contents| + |d| <= q.size
  {
    var all := q.contents + d;
    if !q.full && |d| <= q.size && |all| > q.size {
      assert |all[q.size..]| != |all|;
    }
  }

  datatype Operation = Send(d: seq<byte>) | Receive(n: nat)

  /** A write that is not refused. */
  predicate Accepts(q: Queue, d: seq<byte>) {
    q.ready && !q.full && |d| <= q.size
  }

  /** A read that is not refused. */
  predicate Supplies(q: Queue, n: nat) {
    q.contents != [] && n <= q.size
  }

  /** An operation is refused, or it is a write with room for it, but not of nothing to an empty
      port, or a read of what is there, but not of nothing from a port filled to the brim. */
  predicate Proper(q: Queue, op: Operation) {
    match op
    case Send(d) =>
      Accepts(q, d) ==> |q.contents| + |d| <= q.size && (d != [] || q.contents != [])
    case Receive(n) =>
      Supplies(q, n) ==> n <= |q.contents| && (n > 0 || |q.contents| < q.size)
  }

  function After(q: Queue, op: Operation): Queue
    requires Proper(q, op)
  {
    match op
    case Send(d) => Put(q, d)
    case Receive(n) => if Supplies(q, n) then Take(q, n) else q
  }

  ghost predicate AllProper(q: Queue, run: seq<Operation>)
    decreases |run|
  {
    run == [] || (Proper(q, run[0]) && AllProper(After(q, run[0]), run[1..]))
  }

  /** The queue after a run of operations. */
  function Final(q: Queue, run: seq<Operation>): Queue
    requires AllProper(q, run)
    decreases |run|
  {
    if run == [] then q else Final(After(q, run[0]), run[1..])
  }

  /** What the writes that were not refused have sent. */
  function AllSent(q: Queue, run: seq<Operation>): seq<byte>
    requires AllProper(q, run)
    decreases |run|
  {
    if run == [] then [] else
    (if run[0].Send? && Accepts(q, run[0].d) then run[0].d else []) + AllSent(After(q, run[0]), run[1..])
  }

  function AllReceived(q: Queue, run: seq<Operation>): seq<byte>
    requires AllProper(q, run)
    decreases |run|
  {
    if run == [] then [] else
    (if run[0].Receive? && Supplies(q, run[0].n) then q.contents[..run[0].n] else [])
    + AllReceived(After(q, run[0]), run[1..])
  }

  lemma OneOperation(q: Queue, op: Operation)
    requires Proper(q, op)
    ensures var sent := if op.Send? && Accepts(q, op.d) then op.d else [];
            var received := if op.Receive? && Supplies(q, op.n) then q.contents[..op.n] else [];
            received + After(q, op).contents == q.contents + sent
  {
  }

  lemma Rejoined<T>(c: seq<T>, first: seq<T>, c': seq<T>, s: seq<T>, rest: seq<T>, left: seq<T>, sent: seq<T>)
    requires first + c' == c + s && rest + left == c' + sent
    ensures (first + rest) + left == c + (s + sent)
  {
    assert (first + rest) + left == first + (rest + left);
    assert first + (c' + sent) == (first + c') + sent;
    assert (c + s) + sent == c + (s + sent);
  }

  /** First in, first out, nothing lost: over any such run the bytes received, followed by what is
      left in the port, are the bytes that were there, followed by those sent. */
  lemma {:induction false} FirstInFirstOut(q: Queue, run: seq<Operation>)
    requires AllProper(q, run)
    ensures AllReceived(q, run) + Final(q, run).contents == q.contents + AllSent(q, run)
    decreases |run|
  {
    if run != [] {
      var op := run[0];
      FirstInFirstOut(After(q, op), run[1..]);
      OneOperation(q, op);
      hide Proper;
      hide After;
      hide Accepts;
      hide Supplies;
      Rejoined(q.contents, if op.Receive? && Supplies(q, op.n) then q.contents[..op.n] else [], After(q, op).contents,
               if op.Send? && Accepts(q, op.d) then op.d else [], AllReceived(After(q, op), run[1..]),
               Final(q, run).contents, AllSent(After(q, op), run[1..]));
    }
  }

  /** The flag after an operation. A write sets it when it fills the port; once set it stays, whatever is
      read, until the port is empty. */
  lemma FullAfter(q: Queue, op: Operation)
    requires Proper(q, op) && q.size > 0
    ensures var q' := After(q, op);
            q'.full <==> (q.full && (op.Receive? && Supplies(q, op.n) ==> q'.contents != []))
                         || (op.Send? && Accepts(q, op.d) && |q'.contents| == q.size)
  {
  }

  /** After a run from an empty port it refuses data if and only if it has been filled since it was last
      empty. */
  ghost predicate FilledSinceEmpty(q: Queue, run: seq<Operation>, filled: bool)
    requires AllProper(q, run)
    decreases |run|
  {
    if run == [] then filled else
    var q' := After(q, run[0]);
    FilledSinceEmpty(q', run[1..], q'.contents != [] && (filled || |q'.contents| == q.size))
  }

  lemma {:induction false} FullIff(q: Queue, run: seq<Operation>)
    requires AllProper(q, run) && q.size > 0 && (q.full ==> q.contents != []) && |q.contents| <= q.size
    requires |q.contents| == q.size ==> q.full
    ensures Final(q, run).full <==> FilledSinceEmpty(q, run, q.full)
    decreases |run|
  {
    if run != [] {
      FullAfter(q, run[0]);
      FullIff(After(q, run[0]), run[1..]);
    }
  }

  /** A new queue in place of one that was not ready. */
  function Created(q: Queue, size: nat, direction: Direction): Queue {
    Queue([], size, false, true, direction, q.mustBeFlushed)
  }

  /** The port record after `pok_port_write` has accepted `n` bytes. */
  function AfterWrite(p: Port, n: nat): Port
    requires p.offE < p.size && n <= p.size
  {
    var end := Move(p.offE, n, p.size);
    p.(offE := end, full := end == p.offB || p.full, empty := false)
  }

  /** The shared array after `pok_port_write` has accepted `d`. */
  function ArrayAfterWrite(s: seq<byte>, p: Port, d: seq<byte>): (r: seq<byte>)
    requires Fits(s, p) && |d| <= p.size && p.offE < p.size
    ensures |r| == |s|
  {
    Pasted(s, p.index, Overwrite(RegionOf(s, p), p.offE, d))
  }

  lemma WriteSome(s: seq<byte>, p: Port, d: seq<byte>)
    requires Fits(s, p) && p.ready && !p.full && d != [] && |d| <= p.size
    ensures var s', p' := ArrayAfterWrite(s, p, d), AfterWrite(p, |d|);
            Fits(s', p') && QueueOf(s', p') == Put(QueueOf(s, p), d)
  {
    var region := RegionOf(s, p);
    var s', p' := ArrayAfterWrite(s, p, d), AfterWrite(p, |d|);
    PasteRegion(s, p, Overwrite(region, p.offE, d));
    hide Move;
    WriteContents(region, p.offB, p.offE, p.empty, d);
    assert RegionOf(s', p') == Overwrite(region, p.offE, d);
    assert Fits(s', p');
    hide Fits;
    hide Pasted;
    hide Overwrite;
    hide Bytes;
    hide RegionOf;
    hide ArrayAfterWrite;
    hide Written;
  }

  lemma RefusedPut(qs: seq<Queue>, pid: nat, d: seq<byte>)
    requires pid < |qs|
    ensures !Accepts(qs[pid], d) ==> qs[pid := Put(qs[pid], d)] == qs
  {
  }

  lemma WriteNothing(s: seq<byte>, p: Port)
    requires Fits(s, p) && p.ready && !p.full && p.size > 0
    ensures var s', p' := ArrayAfterWrite(s, p, []), AfterWrite(p, 0);
            && Fits(s', p')
            && (!p.empty ==> QueueOf(s', p') == Put(QueueOf(s, p), []))
            && (p.empty ==> p'.full && |Holding(s', p')| == p.size)
  {
    hide Move;
    assert Overwrite(RegionOf(s, p), p.offE, []) == RegionOf(s, p);
    hide Overwrite;
    assert ArrayAfterWrite(s, p, []) == s;
    hide ArrayAfterWrite;
    hide Bytes;
  }

  /** A write, in terms of the queues: one is `Put` to, the others keep what they have. */
  lemma WriteToTable(s: seq<byte>, ports: seq<Port>, available: nat, pid: nat, d: seq<byte>)
    requires Layout(ports, |s|, available) && pid < |ports| && AllFit(s, ports)
    requires var p := ports[pid]; p.ready && !p.full && |d| <= p.size && p.size > 0
    ensures var s', ports' := ArrayAfterWrite(s, ports[pid], d), ports[pid := AfterWrite(ports[pid], |d|)];
            && Layout(ports', |s|, available) && AllFit(s', ports')
            && var q, q' := QueuesOf(s, ports), QueuesOf(s', ports');
               && q' == q[pid := q'[pid]]
               && (d != [] || q[pid].contents != [] ==> q'[pid] == Put(q[pid], d))
               && (d == [] && q[pid].contents == [] ==>
                     && q'[pid] == q[pid].(contents := q'[pid].contents, full := true)
                     && |q'[pid].contents| == q[pid].size)
  {
    var p := ports[pid];
    if d != [] {
      WriteSome(s, p, d);
    } else {
      WriteNothing(s, p);
    }
    hide Put;
    hide Overwrite;
    OneQueueChanges(s, ports, available, pid, Overwrite(RegionOf(s, p), p.offE, d), AfterWrite(p, |d|));
    hide Layout;
    hide QueuesOf;
  }

  /** What `pok_port_get` of `n` bytes does to a queue: it takes a prefix; but a read of nothing
      empties a port filled to the brim, and a read of more than there is goes on round the region
      and leaves the port with the bytes it did not reach followed by those it had. */
  ghost predicate Read(q: Queue, cycle: seq<byte>, n: nat, out: seq<byte>, q': Queue)
    requires n <= |cycle|
  {
    if n > |q.contents| then
      out == cycle[..n] && q' == q.(contents := cycle[n..] + q.contents)
    else
      out == q.contents[..n] && q' == Take(q, if n == 0 && |q.contents| == q.size then q.size else n)
  }

  /** A read that is not refused hands out the bytes that it removes if and only if it asks for what
      is there, and not for nothing from a port filled to the brim. */
  lemma ReadTakesIff(q: Queue, cycle: seq<byte>, n: nat, out: seq<byte>, q': Queue)
    requires Supplies(q, n) && |q.contents| <= |cycle| == q.size && Read(q, cycle, n, out, q')
    ensures out + q'.contents == q.contents <==> Proper(q, Receive(n))
  {
    if n > |q.contents| {
      assert |out + q'.contents| == q.size + |q.contents|;
    } else if Proper(q, Receive(n)) {
      assert q.contents[..n] + q.contents[n..] == q.contents;
    }
  }

  /** The port record after `pok_port_get` has copied `n` bytes. */
  function AfterGet(p: Port, n: nat): Port
    requires p.offB < p.size && n <= p.size
  {
    var p' := p.(offB := Move(p.offB, n, p.size));
    if p'.offB == p'.offE then p'.(empty := true, full := false) else p'
  }

  lemma ReadFromPort(s: seq<byte>, p: Port, n: nat)
    requires Fits(s, p) && !p.empty && n <= p.size
    ensures var cycle, p' := Unroll(RegionOf(s, p), p.offB), AfterGet(p, n);
            WellFormed(p') && Read(QueueOf(s, p), cycle, n, Copied(RegionOf(s, p), p.offB, n), QueueOf(s, p'))
  {
    var region := RegionOf(s, p);
    var b' := Move(p.offB, n, p.size);
    assert WellFormed(AfterGet(p, n)) && RegionOf(s, AfterGet(p, n)) == region;
    assert Holding(s, AfterGet(p, n)) == Bytes(region, b', p.offE, b' == p.offE);
    assert Holding(s, p) == Bytes(region, p.offB, p.offE, false);
    hide Holding;
    CopiedIsPrefix(region, p.offB, n);
    if n <= Used(p.size, p.offB, p.offE, false) {
      ReadContents(region, p.offB, p.offE, false, n);
    } else {
      ReadBeyond(region, p.offB, p.offE, n);
    }
    hide RegionOf;
    hide WellFormed;
    hide Move;
    hide Bytes;
    hide Unroll;
    hide Copied;
  }

  /** A read touches one port record and nothing else. */
  lemma ReadFromTable(s: seq<byte>, ports: seq<Port>, available: nat, pid: nat, n: nat)
    requires Layout(ports, |s|, available) && AllFit(s, ports) && pid < |ports|
    requires !ports[pid].empty && n <= ports[pid].size
    ensures var ports' := ports[pid := AfterGet(ports[pid], n)];
            && Layout(ports', |s|, available) && AllFit(s, ports')
            && QueuesOf(s, ports') == QueuesOf(s, ports)[pid := QueueOf(s, ports'[pid])]
  {
    ReadFromPort(s, ports[pid], n);
    var ports' := ports[pid := AfterGet(ports[pid], n)];
    SamePlace(ports, |s|, available, pid, ports'[pid]);
    LayoutFits(s, ports', available);
    hide Layout;
    QueuesDifferAt(s, ports, s, ports', pid);
  }

  lemma CreateInTable(s: seq<byte>, ports: seq<Port>, available: nat, gid: nat, p: Port)
    requires Layout(ports, |s|, available) && AllFit(s, ports) && gid < |ports| && !ports[gid].ready
    requires p.size <= available && p.size <= MAX_SIZE
    requires p == ports[gid].(index := |s| - available, offB := 0, offE := 0, size := p.size, full := false,
                              direction := p.direction, ready := true, queueing := true)
    ensures var ports' := ports[gid := p];
            && Layout(ports', |s|, available - p.size) && AllFit(s, ports')
            && QueuesOf(s, ports') ==
               QueuesOf(s, ports)[gid := Created(QueueOf(s, ports[gid]), p.size, p.direction)]
  {
    OneQueueAdded(s, ports, available, gid, p);
    assert QueueOf(s, p) == Created(QueueOf(s, ports[gid]), p.size, p.direction);
    hide QueuesOf;
    hide QueueOf;
    hide Layout;
  }

  class PortTable {
    const data: array<byte>
    var available: nat
    var ports: seq<Port>

    ghost predicate Valid()
      reads this
    {
      Layout(ports, data.Length, available)
    }

    ghost function Queues(): (q: seq<Queue>)
      requires Valid()
      reads this, data
      ensures |q| == |ports| && forall i | 0 <= i < |ports| :: q[i] == QueueOf(data[..], ports[i])
    {
      LayoutFits(data[..], ports, available);
      QueuesOf(data[..], ports)
    }

    /** The whole region of a port, from its first byte round to the one before it: the contents
        come first. */
    ghost function Cycle(pid: nat): (c: seq<byte>)
      requires Valid() && pid < |ports|
      reads this, data
      ensures |c| == Queues()[pid].size && Queues()[pid].contents <= c
    {
      LayoutFits(data[..], ports, available);
      var p := ports[pid];
      if p.size == 0 then [] else Unroll(RegionOf(data[..], p), p.offB)
    }

    /** `pok_queue_init` and `pok_port_init`; the source allocates 1024 bytes. */
    constructor (size: nat, nports: nat)
      ensures Valid() && fresh(data) && data.Length == size && available == size
      ensures |Queues()| == nports
      ensures forall i | 0 <= i < nports :: Queues()[i] == Queue([], 0, false, false, In, false)
    {
      data := new byte[size];
      available := size;
      ports := seq(nports, i => Port(0, 0, 0, 0, false, true, false, false, In, false));
      new;
      TotalSizeOfNone(ports);
    }

    /** `pok_port_create`. `lookup` is the outcome of finding the port by name, `owned` that of
        the ownership test. `empty` is not set here: it still holds from `pok_port_init`. */
    method Create(gid: nat, size: nat, direction: Direction, lookup: Status, owned: bool)
      returns (status: Status)
      requires Valid() && gid < |ports|
      modifies this`ports, this`available
      ensures Valid()
      ensures status == if size > MAX_SIZE || size > old(available) || direction == Unset then PortError
                        else if lookup != Ok then lookup
                        else if !owned then PortError
                        else if old(Queues())[gid].ready then Exists
                        else Ok
      ensures status == Ok ==>
                && available == old(available) - size
                && Queues() == old(Queues())[gid := Created(old(Queues())[gid], size, direction)]
                && Queues()[gid] == old(Queues())[gid].(contents := [], size := size, full := false, ready := true,
                                                        direction := direction)
      ensures status != Ok ==> ports == old(ports) && available == old(available)
    {
      hide Layout;
      hide QueuesOf;
      hide Holding;
      hide WellFormed;
      if size > MAX_SIZE || size > available {
        return PortError;
      }
      if direction != In && direction != Out {
        return PortError;
      }
      if lookup != Ok {
        return lookup;
      }
      if !owned {
        return PortError;
      }
      if ports[gid].ready {
        return Exists;
      }
      var created := ports[gid].(index := data.Length - available, offB := 0, offE := 0, size := size,
                                 full := false, direction := direction, ready := true, queueing := true);
      LayoutFits(data[..], ports, available);
      CreateInTable(data[..], ports, available, gid, created);
      ports := ports[gid := created];
      available := available - size;
      status := Ok;
    }

    /** `pok_port_consumed_size`. */
    method ConsumedSize(pid: nat) returns (n: nat)
      requires Valid() && pid < |ports|
      ensures n == |Queues()[pid].contents|
    {
      var p := ports[pid];
      if p.empty {
        return 0;
      }
      if p.offB < p.offE {
        return p.offE - p.offB;
      } else {
        return p.size - p.offB + p.offE;
      }
    }

    /** `memcpy` into the shared array. */
    method CopyIn(at: nat, d: seq<byte>)
      requires at + |d| <= data.Length
      modifies data
      ensures data[..] == Pasted(old(data[..]), at, d)
    {
      forall k | 0 <= k < |d| {
        data[at + k] := d[k];
      }
    }

    /** The one or two copies of `pok_port_write`. */
    method CopyToRegion(p: Port, d: seq<byte>)
      requires Fits(data[..], p) && |d| <= p.size && p.offE < p.size
      modifies data
      ensures data[..] == ArrayAfterWrite(old(data[..]), p, d)
    {
      hide Pasted;
      hide Overwrite;
      if p.offE + |d| > p.size {
        PasteInTwo(data[..], p, d);
        var first := p.size - p.offE;
        CopyIn(p.index + p.offE, d[..first]);
        CopyIn(p.index, d[first..]);
      } else {
        PasteInOne(data[..], p, d);
        CopyIn(p.index + p.offE, d);
      }
    }

    /** `pok_port_write`. Nothing tests for room: see `Written` for a write that does not fit. A
        write of no bytes to an empty port makes it full of the bytes its region holds, and one to a
        port of size 0 divides by that size. */
    method Write(pid: nat, d: seq<byte>) returns (status: Status)
      requires Valid() && pid < |ports|
      modifies this`ports, data
      ensures Valid() && |ports| == |old(ports)|
      ensures var q := old(Queues())[pid];
              status == if !q.ready then Invalid
                        else if q.full || |d| > q.size then WrongSize
                        else if q.size == 0 then DivisionByZero
                        else Ok
      ensures d != [] || old(Queues())[pid].contents != [] || status == Invalid || status == WrongSize ==>
                Queues() == old(Queues())[pid := Put(old(Queues())[pid], d)]
      ensures d == [] && old(Queues())[pid].contents == [] && status == Ok ==>
                && Queues() == old(Queues())[pid := Queues()[pid]]
                && Queues()[pid] == old(Queues())[pid].(contents := Queues()[pid].contents, full := true)
                && |Queues()[pid].contents| == Queues()[pid].size
      ensures status != Ok ==> ports == old(ports) && data[..] == old(data[..])
    {
      hide AllFit;
      hide QueuesOf;
      hide Put;
      hide Written;
      hide ArrayAfterWrite;
      hide AfterWrite;
      var p := ports[pid];
      LayoutFits(data[..], ports, available);
      RefusedPut(Queues(), pid, d);
      if !p.queueing {
        return Invalid;
      }
      if p.full {
        return WrongSize;
      }
      if |d| > p.size {
        return WrongSize;
      }
      if p.size == 0 {
        return DivisionByZero;
      }
      WriteToTable(data[..], ports, available, pid, d);
      CopyToRegion(p, d);
      ports := ports[pid := AfterWrite(p, |d|)];
      status := Ok;
    }

    /** The one or two copies of `pok_port_get`. */
    method CopyOut(p: Port, n: nat) returns (out: seq<byte>)
      requires Fits(data[..], p) && n <= p.size && p.offB < p.size
      ensures out == Copied(RegionOf(data[..], p), p.offB, n)
    {
      CopiedFromArray(data[..], p, n);
      hide Copied;
      hide RegionOf;
      if p.offB + n > p.size {
        var first := p.size - p.offB;
        out := data[p.index + p.offB..p.index + p.offB + first];
        var second := n - first;
        out := out + data[p.index..p.index + second];
      } else {
        out := data[p.index + p.offB..p.index + p.offB + n];
      }
    }

    /** `pok_port_get`. */
    method Get(pid: nat, n: nat) returns (status: Status, out: seq<byte>)
      requires Valid() && pid < |ports|
      modifies this`ports
      ensures Valid() && |ports| == |old(ports)|
      ensures var q := old(Queues())[pid];
              status == if q.contents == [] then Invalid else if q.size < n then WrongSize else Ok
      ensures status == Ok ==> Read(old(Queues())[pid], old(Cycle(pid)), n, out, Queues()[pid])
      ensures status == Ok ==> Queues() == old(Queues())[pid := Queues()[pid]]
      ensures status != Ok ==> ports == old(ports)
    {
      var p := ports[pid];
      out := [];
      if !p.queueing {
        return Invalid, [];
      }
      if p.empty {
        return Invalid, [];
      }
      if p.size < n {
        return WrongSize, [];
      }
      LayoutFits(data[..], ports, available);
      ReadFromPort(data[..], p, n);
      ReadFromTable(data[..], ports, available, pid, n);
      out := CopyOut(p, n);
      hide Layout;
      hide AllFit;
      hide Fits;
      hide Holding;
      hide Unroll;
      hide Read;
      hide Copied;
      hide AfterGet;
      hide QueuesOf;
      ports := ports[pid := AfterGet(p, n)];
      status := Ok;
    }

    /** `pok_ports[pid].must_be_flushed = value`: set by a send, cleared by the flush. */
    method SetMustBeFlushed(pid: nat, value: bool)
      requires Valid() && pid < |ports|
      modifies this`ports
      ensures Valid() && |ports| == |old(ports)|
      ensures Queues() == old(Queues())[pid := old(Queues())[pid].(mustBeFlushed := value)]
    {
      var p := ports[pid].(mustBeFlushed := value);
      LayoutFits(data[..], ports, available);
      SamePlace(ports, data.Length, available, pid, p);
      LayoutFits(data[..], ports[pid := p], available);
      assert Holding(data[..], p) == Holding(data[..], ports[pid]) by {
        assert RegionOf(data[..], p) == RegionOf(data[..], ports[pid]);
      }
      hide Layout;
      hide Holding;
      QueuesDifferAt(data[..], ports, data[..], ports[pid := p], pid);
      ports := ports[pid := p];
    }
  }
}
