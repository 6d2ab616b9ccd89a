/** Circular buffers: cyclic indices, and a buffer read from its head. */
module RingBuffer {
  /** The index `p` places after `head`, cyclically. */
  function Slot(head: nat, p: nat, n: nat): nat {
    if head + p < n then head + p else head + p - n
  }

  /** `(i + 1) % n` on an index. */
  function Next(i: nat, n: nat): (j: nat)
    requires i < n
    ensures j == if i + 1 < n then i + 1 else 0
  {
    (i + 1) % n
  }

  /** `i ? i - 1 : n - 1` on an index. */
  function Previous(i: nat, n: nat): (j: nat)
    requires i < n
    ensures j < n && Next(j, n) == i
  {
    if i > 0 then i - 1 else n - 1
  }

  /** The whole buffer read from `h` on. */
  function Unroll<T>(b: seq<T>, h: nat): (u: seq<T>)
    requires h < |b|
    ensures |u| == |b|
    ensures forall p | 0 <= p < |b| :: u[p] == b[Slot(h, p, |b|)]
  {
    b[h..] + b[..h]
  }

  lemma UnrollUpdate<T>(b: seq<T>, h: nat, p: nat, v: T)
    requires h < |b| && p < |b|
    ensures Unroll(b[Slot(h, p, |b|) := v], h) == Unroll(b, h)[p := v]
  {
    hide Unroll;
    var i, u, u' := Slot(h, p, |b|), Unroll(b, h), Unroll(b[Slot(h, p, |b|) := v], h);
    forall q | 0 <= q < |b| ensures u'[q] == u[p := v][q] {
      assert Slot(h, q, |b|) == i <==> q == p;
    }
  }

  lemma UnrollNext<T>(b: seq<T>, h: nat)
    requires h < |b|
    ensures Unroll(b, Next(h, |b|)) == Unroll(b, h)[1..] + [b[h]]
  {
    hide Unroll;
    var h' := Next(h, |b|);
    forall q | 0 <= q < |b| ensures Unroll(b, h')[q] == (Unroll(b, h)[1..] + [b[h]])[q] {
      assert q < |b| - 1 ==> Slot(h', q, |b|) == Slot(h, q + 1, |b|);
      assert q == |b| - 1 ==> Slot(h', q, |b|) == h;
    }
  }
}
