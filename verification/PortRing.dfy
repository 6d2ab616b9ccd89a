/** What a queueing port holds: the bytes between two offsets of a circular region. */
module PortRing {
  import opened PowersOfTwo
  import opened RingBuffer

  type byte = x: int | 0 <= x < 256

  /** `off_b`, `off_e` and `empty` of a port over its region. */
  ghost predicate Offsets(size: nat, b: nat, e: nat, empty: bool) {
    b < size && e < size && (empty ==> b == e)
  }

  function Used(size: nat, b: nat, e: nat, empty: bool): (l: nat)
    requires Offsets(size, b, e, empty)
    ensures l <= size && e == Slot(b, l, size) && (l == 0 <==> empty)
  {
    if empty then 0 else if b < e then e - b else size - b + e
  }

  function Bytes(region: seq<byte>, b: nat, e: nat, empty: bool): (c: seq<byte>)
    requires Offsets(|region|, b, e, empty)
    ensures |c| == Used(|region|, b, e, empty)
  {
    Unroll(region, b)[..Used(|region|, b, e, empty)]
  }

  lemma BytesAt(region: seq<byte>, b: nat, e: nat, empty: bool, p: nat)
    requires Offsets(|region|, b, e, empty) && p < Used(|region|, b, e, empty)
    ensures Bytes(region, b, e, empty)[p] == region[Slot(b, p, |region|)]
  {
  }

  /** An offset moved on by at most one turn. */
  function Move(offset: nat, n: nat, size: nat): (r: nat)
    requires offset < size && n <= size
    ensures r == if offset + n < size then offset + n else offset + n - size
  {
    hide Pow2;
    var turns := if offset + n < size then 0 else 1;
    DivModUnique(offset + n, size, turns, offset + n - turns * size);
    (offset + n) % size
  }

  /** The region after `d` has been copied in at `e`, in two pieces if it reaches the end. */
  function Overwrite(region: seq<byte>, e: nat, d: seq<byte>): (r: seq<byte>)
    requires e < |region| && |d| <= |region|
    ensures |r| == |region|
  {
    var n := |region|;
    if e + |d| > n then d[n - e..] + region[e + |d| - n..e] + d[..n - e]
    else region[..e] + d + region[e + |d|..]
  }

  /** What a write makes of the contents: it appends while there is room; one that does not fit
      drops everything that was there and the beginning of its own data. */
  function Written(contents: seq<byte>, d: seq<byte>, size: nat): seq<byte> {
    var all := contents + d;
    if |all| <= size then all else all[size..]
  }

  lemma OverwriteAt(region: seq<byte>, e: nat, d: seq<byte>, i: nat)
    requires e < |region| && |d| <= |region| && i < |region|
    ensures var n := |region|;
            Overwrite(region, e, d)[i] ==
            if e <= i < e + |d| then d[i - e]
            else if i + n < e + |d| then d[i + n - e]
            else region[i]
  {
  }

  lemma WriteContents(region: seq<byte>, b: nat, e: nat, empty: bool, d: seq<byte>)
    requires Offsets(|region|, b, e, empty) && 0 < |d| <= |region|
    requires Used(|region|, b, e, empty) < |region|
    ensures var e' := Move(e, |d|, |region|);
            && Bytes(Overwrite(region, e, d), b, e', false)
               == Written(Bytes(region, b, e, empty), d, |region|)
            && (e' == b <==> |Bytes(region, b, e, empty)| + |d| == |region|)
  {
    hide Overwrite;
    hide Bytes;
    var n := |region|;
    hide Move;
    var e' := Move(e, |d|, n);
    var before, after := Bytes(region, b, e, empty), Bytes(Overwrite(region, e, d), b, e', false);
    var want := Written(before, d, n);
    assert |after| == |want|;
    forall p | 0 <= p < |after| ensures after[p] == want[p] {
      OverwriteAt(region, e, d, Slot(b, p, n));
      BytesAt(Overwrite(region, e, d), b, e', false, p);
      if |before| + |d| <= n && p < |before| {
        BytesAt(region, b, e, empty, p);
      }
    }
  }

  /** A read of `n` bytes from `b`, in two pieces if it reaches the end of the region. */
  function Copied(region: seq<byte>, b: nat, n: nat): (d: seq<byte>)
    requires b < |region| && n <= |region|
    ensures |d| == n
  {
    if b + n > |region| then region[b..] + region[..b + n - |region|] else region[b..b + n]
  }

  lemma CopiedIsPrefix(region: seq<byte>, b: nat, n: nat)
    requires b < |region| && n <= |region|
    ensures Copied(region, b, n) == Unroll(region, b)[..n]
  {
  }

  /** A read of no more than what is there takes a prefix, except that a read of nothing from a
      region filled to the brim empties it. */
  lemma ReadContents(region: seq<byte>, b: nat, e: nat, empty: bool, n: nat)
    requires Offsets(|region|, b, e, empty) && !empty && n <= Used(|region|, b, e, empty)
    ensures var b' := Move(b, n, |region|);
            var c := Bytes(region, b, e, empty);
            && Copied(region, b, n) == c[..n]
            && (b' == e <==> n == |c| || (n == 0 && |c| == |region|))
            && Bytes(region, b', e, b' == e) == if b' == e then [] else c[n..]
  {
    CopiedIsPrefix(region, b, n);
    var b' := Move(b, n, |region|);
    var c, rest := Bytes(region, b, e, empty), Bytes(region, b', e, b' == e);
    assert Copied(region, b, n) == c[..n];
    hide Move;
    hide Bytes;
    hide Copied;
    hide Unroll;
    if b' != e {
      forall p | 0 <= p < |rest| ensures rest[p] == c[n..][p] {
        assert Slot(b', p, |region|) == Slot(b, n + p, |region|);
        BytesAt(region, b', e, false, p);
        BytesAt(region, b, e, empty, n + p);
      }
    }
  }

  /** A read of more than what is there goes on into the rest of the region, and leaves the port
      holding what it did not reach, followed by what it did hold. */
  lemma ReadBeyond(region: seq<byte>, b: nat, e: nat, n: nat)
    requires Offsets(|region|, b, e, false) && Used(|region|, b, e, false) < n <= |region|
    ensures var b' := Move(b, n, |region|);
            var u := Unroll(region, b);
            && Copied(region, b, n) == u[..n]
            && b' != e
            && Bytes(region, b', e, false) == u[n..] + Bytes(region, b, e, false)
  {
    CopiedIsPrefix(region, b, n);
    var b' := Move(b, n, |region|);
    var u, c, c' := Unroll(region, b), Bytes(region, b, e, false), Bytes(region, b', e, false);
    hide Move;
    hide Bytes;
    hide Copied;
    hide Unroll;
    forall p | 0 <= p < |c'| ensures c'[p] == (u[n..] + c)[p] {
      BytesAt(region, b', e, false, p);
      if p < |region| - n {
        assert Slot(b', p, |region|) == Slot(b, n + p, |region|);
      } else {
        assert Slot(b', p, |region|) == Slot(b, p - (|region| - n), |region|);
        BytesAt(region, b, e, false, p - (|region| - n));
      }
    }
  }
}
