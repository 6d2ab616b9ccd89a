/** Port records over one shared byte array, and the independent queues they stand for:
    kernel/include/middleware/port.h, queue.h and the size functions of portutils.c. */
module PortLayout {
  import opened PortRing

  datatype Direction = In | Out | Unset

  const MAX_SIZE: nat := 512

  /** The fields of `pok_port_t` that the queueing service uses. `queueing` is false for the kind
      that `pok_port_init` sets. */
  datatype Port = Port(
    index: nat, size: nat, offB: nat, offE: nat,
    full: bool, empty: bool, ready: bool, queueing: bool, direction: Direction, mustBeFlushed: bool)

  /** What a port looks like without offsets and without the shared array. `full` is the flag that
      makes it refuse data. */
  datatype Queue = Queue(
    contents: seq<byte>, size: nat, full: bool, ready: bool, direction: Direction, mustBeFlushed: bool)

  ghost predicate WellFormed(p: Port) {
    && (p.ready <==> p.queueing)
    && (!p.ready ==> p.size == 0)
    && p.size <= MAX_SIZE
    && (p.size == 0 ==> p.empty)
    && (p.size > 0 ==> Offsets(p.size, p.offB, p.offE, p.empty))
    && (!p.full && !p.empty ==> p.offB != p.offE)
    && (p.full ==> !p.empty)
  }

  ghost predicate Fits(d: seq<byte>, p: Port) {
    WellFormed(p) && (p.size > 0 ==> p.index + p.size <= |d|)
  }

  function RegionOf(d: seq<byte>, p: Port): (r: seq<byte>)
    requires Fits(d, p)
    ensures |r| == p.size
  {
    if p.size == 0 then [] else d[p.index..p.index + p.size]
  }

  function Holding(d: seq<byte>, p: Port): (c: seq<byte>)
    requires Fits(d, p)
    ensures |c| <= p.size && (c == [] <==> p.empty)
  {
    if p.size == 0 then [] else Bytes(RegionOf(d, p), p.offB, p.offE, p.empty)
  }

  function QueueOf(d: seq<byte>, p: Port): Queue
    requires Fits(d, p)
  {
    Queue(Holding(d, p), p.size, p.full, p.ready, p.direction, p.mustBeFlushed)
  }

  function TotalSize(ports: seq<Port>): nat {
    if ports == [] then 0 else ports[0].size + TotalSize(ports[1..])
  }

  lemma {:induction false} TotalSizeUpdate(ports: seq<Port>, i: nat, p: Port)
    requires i < |ports|
    ensures TotalSize(ports[i := p]) == TotalSize(ports) - ports[i].size + p.size
  {
    if i > 0 {
      TotalSizeUpdate(ports[1..], i - 1, p);
      assert ports[i := p][1..] == ports[1..][i - 1 := p];
    }
  }

  lemma {:induction false} TotalSizeOfNone(ports: seq<Port>)
    requires forall i | 0 <= i < |ports| :: ports[i].size == 0
    ensures TotalSize(ports) == 0
  {
    if ports != [] {
      TotalSizeOfNone(ports[1..]);
    }
  }

  ghost predicate Disjoint(p: Port, q: Port) {
    p.size == 0 || q.size == 0 || p.index + p.size <= q.index || q.index + q.size <= p.index
  }

  /** The regions lie in the allocated part of the array, pairwise apart, and fill it. */
  ghost predicate Layout(ports: seq<Port>, size: nat, available: nat)
    ensures Layout(ports, size, available) ==> available <= size
  {
    && available <= size
    && TotalSize(ports) == size - available
    && (forall i | 0 <= i < |ports| :: WellFormed(ports[i]))
    && (forall i | 0 <= i < |ports| && ports[i].size > 0 :: ports[i].index + ports[i].size <= size - available)
    && (forall i, j | 0 <= i < |ports| && 0 <= j < |ports| && i != j :: Disjoint(ports[i], ports[j]))
  }

  /** `memcpy` of `d` to the offset `at`. */
  function Pasted(s: seq<byte>, at: nat, d: seq<byte>): (r: seq<byte>)
    requires at + |d| <= |s|
    ensures |r| == |s|
  {
    s[..at] + d + s[at + |d|..]
  }

  lemma PastedAt(s: seq<byte>, at: nat, d: seq<byte>, k: nat)
    requires at + |d| <= |s| && k < |s|
    ensures Pasted(s, at, d)[k] == if at <= k < at + |d| then d[k - at] else s[k]
  {
  }

  /** Pasting a whole region replaces it and leaves every disjoint region alone. */
  lemma PasteRegion(s: seq<byte>, p: Port, r: seq<byte>)
    requires Fits(s, p) && p.size > 0 && |r| == p.size
    ensures RegionOf(Pasted(s, p.index, r), p) == r
  {
  }

  lemma RegionElsewhere(s: seq<byte>, p: Port, r: seq<byte>, q: Port)
    requires Fits(s, p) && Fits(s, q) && p.size > 0 && |r| == p.size && Disjoint(p, q)
    ensures Fits(Pasted(s, p.index, r), q) && RegionOf(Pasted(s, p.index, r), q) == RegionOf(s, q)
  {
    var s' := Pasted(s, p.index, r);
    hide Pasted;
    forall k | 0 <= k < q.size ensures RegionOf(s', q)[k] == RegionOf(s, q)[k] {
      PastedAt(s, p.index, r, q.index + k);
    }
  }

  lemma PasteElsewhere(s: seq<byte>, p: Port, r: seq<byte>, q: Port)
    requires Fits(s, p) && Fits(s, q) && p.size > 0 && |r| == p.size && Disjoint(p, q)
    ensures QueueOf(Pasted(s, p.index, r), q) == QueueOf(s, q)
  {
    hide Pasted;
    hide Bytes;
    hide RegionOf;
    hide Disjoint;
    RegionElsewhere(s, p, r, q);
  }

  /** The two copies of a write that reaches the end of the region, portutils.c:138-145. */
  lemma PasteInTwo(s: seq<byte>, p: Port, d: seq<byte>)
    requires Fits(s, p) && p.offE < p.size && |d| <= p.size < p.offE + |d|
    ensures var n := p.size - p.offE;
            Pasted(Pasted(s, p.index + p.offE, d[..n]), p.index, d[n..])
            == Pasted(s, p.index, Overwrite(RegionOf(s, p), p.offE, d))
  {
    var n := p.size - p.offE;
    var twice := Pasted(Pasted(s, p.index + p.offE, d[..n]), p.index, d[n..]);
    var once := Pasted(s, p.index, Overwrite(RegionOf(s, p), p.offE, d));
    assert |twice| == |once|;
    hide Pasted;
    hide Overwrite;
    forall k | 0 <= k < |s| ensures twice[k] == once[k] {
      PastedAt(s, p.index + p.offE, d[..n], k);
      PastedAt(Pasted(s, p.index + p.offE, d[..n]), p.index, d[n..], k);
      PastedAt(s, p.index, Overwrite(RegionOf(s, p), p.offE, d), k);
      if p.index <= k < p.index + p.size {
        OverwriteAt(RegionOf(s, p), p.offE, d, k - p.index);
      }
    }
  }

  /** The single copy, portutils.c:146-147. */
  lemma PasteInOne(s: seq<byte>, p: Port, d: seq<byte>)
    requires Fits(s, p) && p.offE < p.size && p.offE + |d| <= p.size
    ensures Pasted(s, p.index + p.offE, d) == Pasted(s, p.index, Overwrite(RegionOf(s, p), p.offE, d))
  {
  }

  lemma SliceOfSlice<T>(s: seq<T>, a: nat, b: nat, c: nat, d: nat)
    requires a <= b <= |s| && c <= d <= b - a
    ensures s[a..b][c..d] == s[a + c..a + d]
  {
    forall k | 0 <= k < d - c ensures s[a..b][c..d][k] == s[a + c..a + d][k] {
    }
  }

  /** The one or two copies of a read, portutils.c:78-87. */
  lemma CopiedFromArray(s: seq<byte>, p: Port, n: nat)
    requires Fits(s, p) && p.offB < p.size && n <= p.size
    ensures var from := p.index + p.offB;
            Copied(RegionOf(s, p), p.offB, n)
            == if p.offB + n > p.size then s[from..p.index + p.size] + s[p.index..p.index + p.offB + n - p.size]
               else s[from..from + n]
  {
    if p.offB + n > p.size {
      SliceOfSlice(s, p.index, p.index + p.size, p.offB, p.size);
      SliceOfSlice(s, p.index, p.index + p.size, 0, p.offB + n - p.size);
    } else {
      SliceOfSlice(s, p.index, p.index + p.size, p.offB, p.offB + n);
    }
  }

  ghost predicate AllFit(d: seq<byte>, ports: seq<Port>) {
    forall i | 0 <= i < |ports| :: Fits(d, ports[i])
  }

  lemma LayoutFits(d: seq<byte>, ports: seq<Port>, available: nat)
    requires Layout(ports, |d|, available)
    ensures AllFit(d, ports)
  {
  }

  /** The queues behind a table of ports. */
  function QueuesOf(d: seq<byte>, ports: seq<Port>): (q: seq<Queue>)
    requires AllFit(d, ports)
    ensures |q| == |ports| && forall i | 0 <= i < |ports| :: q[i] == QueueOf(d, ports[i])
  {
    if ports == [] then [] else [QueueOf(d, ports[0])] + QueuesOf(d, ports[1..])
  }

  lemma SamePlace(ports: seq<Port>, size: nat, available: nat, i: nat, p: Port)
    requires Layout(ports, size, available) && i < |ports|
    requires WellFormed(p) && p.index == ports[i].index && p.size == ports[i].size
    ensures Layout(ports[i := p], size, available)
  {
    TotalSizeUpdate(ports, i, p);
    hide TotalSize;
    hide WellFormed;
    var ports' := ports[i := p];
    forall j, k | 0 <= j < |ports| && 0 <= k < |ports| && j != k ensures Disjoint(ports'[j], ports'[k]) {
      assert Disjoint(ports[j], ports[k]);
    }
  }

  lemma QueuesDifferAt(d: seq<byte>, ports: seq<Port>, d': seq<byte>, ports': seq<Port>, i: nat)
    requires AllFit(d, ports) && AllFit(d', ports') && i < |ports| == |ports'|
    requires forall q | 0 <= q < |ports| && q != i :: QueueOf(d', ports'[q]) == QueueOf(d, ports[q])
    ensures QueuesOf(d', ports') == QueuesOf(d, ports)[i := QueueOf(d', ports'[i])]
  {
    hide QueueOf;
    hide Fits;
    hide QueuesOf;
  }

  lemma OtherQueues(d: seq<byte>, ports: seq<Port>, available: nat, i: nat, r: seq<byte>)
    requires Layout(ports, |d|, available) && AllFit(d, ports) && i < |ports| && ports[i].size == |r| > 0
    ensures var d' := Pasted(d, ports[i].index, r);
            forall q | 0 <= q < |ports| && q != i :: Fits(d', ports[q]) && QueueOf(d', ports[q]) == QueueOf(d, ports[q])
  {
    forall q | 0 <= q < |ports| && q != i
      ensures var d' := Pasted(d, ports[i].index, r);
              Fits(d', ports[q]) && QueueOf(d', ports[q]) == QueueOf(d, ports[q])
    {
      PasteElsewhere(d, ports[i], r, ports[q]);
    }
  }

  /** Replacing the region of one port and moving its offsets changes that queue only. */
  lemma OneQueueChanges(d: seq<byte>, ports: seq<Port>, available: nat, i: nat, r: seq<byte>, p: Port)
    requires Layout(ports, |d|, available) && i < |ports| && AllFit(d, ports)
    requires WellFormed(p) && p.index == ports[i].index && p.size == ports[i].size == |r| > 0
    ensures var d', ports' := Pasted(d, p.index, r), ports[i := p];
            && Layout(ports', |d|, available) && AllFit(d', ports')
            && QueuesOf(d', ports') == QueuesOf(d, ports)[i := QueueOf(d', p)]
  {
    SamePlace(ports, |d|, available, i, p);
    var d', ports' := Pasted(d, p.index, r), ports[i := p];
    LayoutFits(d', ports', available);
    OtherQueues(d, ports, available, i, r);
    hide Layout;
    hide WellFormed;
    hide Pasted;
    QueuesDifferAt(d, ports, d', ports', i);
  }

  /** Carving a region off the unallocated end of the array adds an empty queue. */
  lemma OneQueueAdded(d: seq<byte>, ports: seq<Port>, available: nat, i: nat, p: Port)
    requires Layout(ports, |d|, available) && i < |ports| && ports[i].size == 0 && AllFit(d, ports)
    requires WellFormed(p) && p.empty && p.size <= available && p.index == |d| - available
    ensures var ports' := ports[i := p];
            && Layout(ports', |d|, available - p.size) && AllFit(d, ports')
            && QueuesOf(d, ports') == QueuesOf(d, ports)[i := QueueOf(d, p)]
  {
    TotalSizeUpdate(ports, i, p);
    hide TotalSize;
    hide QueuesOf;
    hide QueueOf;
    hide WellFormed;
    var ports' := ports[i := p];
    forall j, k | 0 <= j < |ports| && 0 <= k < |ports| && j != k ensures Disjoint(ports'[j], ports'[k]) {
      assert Disjoint(ports[j], ports[k]);
    }
  }
}
