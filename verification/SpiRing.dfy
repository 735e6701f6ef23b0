/** The byte ring of the SPI loader (fw_loader_io_linux_spi.c) against a plain queue. */
module SpiRing {
  import opened Basics

  const RING_SIZE := 51

  /** What a write does to the queue: below the full room it appends; a write that fills
      the room makes the two indices meet, and the ring reads as empty. */
  function Append(q: seq<Byte>, data: seq<Byte>): seq<Byte> {
    if |q| + |data| < RING_SIZE then q + data else []
  }

  /** The queue of n bytes that starts at index start of the ring. */
  function Unroll(ring: seq<Byte>, start: nat, n: nat): (q: seq<Byte>)
    requires |ring| == RING_SIZE && start < RING_SIZE && n <= RING_SIZE
    ensures |q| == n
  {
    seq(n, k requires 0 <= k < n => ring[Wrap(start + k)])
  }

  function Wrap(i: nat): (r: nat)
    requires i < 2 * RING_SIZE
    ensures r < RING_SIZE
  {
    if i < RING_SIZE then i else i - RING_SIZE
  }

  class Ring {
    const data: array<Byte>
    var inIdx: nat
    var outIdx: nat

    ghost predicate Valid()
      reads this
    {
      data.Length == RING_SIZE && inIdx < RING_SIZE && outIdx < RING_SIZE
    }

    ghost function Count(): nat
      requires Valid()
      reads this
    {
      if inIdx >= outIdx then inIdx - outIdx else RING_SIZE + inIdx - outIdx
    }

    ghost function Contents(): (q: seq<Byte>)
      requires Valid()
      reads this, data
      ensures |q| == Count() < RING_SIZE
    {
      Unroll(data[..], outIdx, Count())
    }

    constructor ()
      ensures Valid() && Contents() == [] && fresh(data)
    {
      data := new Byte[RING_SIZE](_ => 0);
      inIdx, outIdx := 0, 0;
    }

    method GetCount() returns (count: nat)
      requires Valid()
      ensures count == |Contents()|
    {
      if inIdx >= outIdx {
        count := inIdx - outIdx;
      } else {
        count := RING_SIZE + inIdx - outIdx;
      }
    }

    method GetRoom() returns (room: nat)
      requires Valid()
      ensures room + |Contents()| == RING_SIZE
    {
      if outIdx > inIdx {
        room := outIdx - inIdx;
      } else {
        room := RING_SIZE + outIdx - inIdx;
      }
    }

    method Flush()
      requires Valid()
      modifies this
      ensures Valid() && Contents() == []
    {
      inIdx := 0;
      outIdx := 0;
    }

    method WriteData(pData: seq<Byte>) returns (len: nat)
      requires Valid()
      modifies this, data
      ensures Valid() && Contents() == Append(old(Contents()), pData)
      ensures len == Min(|pData|, RING_SIZE - |old(Contents())|)
    {
      ghost var q := Contents();
      ghost var start := inIdx;
      var room := GetRoom();
      len := if |pData| < room then |pData| else room;
      var i := 0;
      while i < len
        invariant 0 <= i <= len
        invariant inIdx == Wrap(start + i) && outIdx == old(outIdx)
        invariant Holds(data[..], outIdx, q) && Holds(data[..], start, pData[..i])
      {
        PutNext(data[..], outIdx, q, start, pData[..i], pData[i]);
        assert pData[..i + 1] == pData[..i] + [pData[i]];
        PutByte(pData[i]);
        i := i + 1;
      }
      if len == |pData| {
        assert pData[..len] == pData;
        Joined(data[..], outIdx, q, start, pData);
      }
    }

    /** One byte at the write index, which wraps around. */
    method PutByte(b: Byte)
      requires Valid()
      modifies this`inIdx, data
      ensures data[..] == old(data[..])[old(inIdx) := b] && inIdx == Wrap(old(inIdx) + 1)
    {
      data[inIdx] := b;
      inIdx := inIdx + 1;
      if inIdx == RING_SIZE {
        inIdx := 0;
      }
    }

    method ReadData(maxLen: nat) returns (out: seq<Byte>)
      requires Valid()
      modifies this
      ensures Valid()
      ensures |out| == Min(maxLen, |old(Contents())|)
      ensures out + Contents() == old(Contents())
    {
      ghost var q := Contents();
      ghost var start := outIdx;
      var count := GetCount();
      var len := if maxLen < count then maxLen else count;
      var pData := new Byte[len];
      var i := 0;
      while i < len
        invariant 0 <= i <= len
        invariant outIdx == Wrap(start + i) && inIdx == old(inIdx) && Valid()
        invariant pData[..i] == q[..i]
      {
        pData[i] := data[outIdx];
        outIdx := outIdx + 1;
        if outIdx == RING_SIZE {
          outIdx := 0;
        }
        i := i + 1;
      }
      out := pData[..];
      assert out == q[..len] && Count() == |q| - len;
      Dropped(data[..], start, q, len);
    }
  }

  /** The bytes s lie in the ring from index start on. */
  predicate Holds(ring: seq<Byte>, start: nat, s: seq<Byte>)
    requires |ring| == RING_SIZE && start < RING_SIZE && |s| <= RING_SIZE
  {
    forall k :: 0 <= k < |s| ==> ring[Wrap(start + k)] == s[k]
  }

  /** The next byte written behind a queue, while the room lasts. */
  lemma PutNext(ring: seq<Byte>, head: nat, q: seq<Byte>, tail: nat, more: seq<Byte>, b: Byte)
    requires |ring| == RING_SIZE && head < RING_SIZE && |q| + |more| < RING_SIZE && tail == Wrap(head + |q|)
    requires Holds(ring, head, q) && Holds(ring, tail, more)
    ensures var r := ring[Wrap(tail + |more|) := b]; Holds(r, head, q) && Holds(r, tail, more + [b])
  {
  }

  /** Bytes written behind a queue extend it. */
  lemma Joined(ring: seq<Byte>, head: nat, q: seq<Byte>, tail: nat, more: seq<Byte>)
    requires |ring| == RING_SIZE && head < RING_SIZE && |q| + |more| <= RING_SIZE && tail == Wrap(head + |q|)
    requires Holds(ring, head, q) && Holds(ring, tail, more)
    ensures Unroll(ring, head, |q| + |more|) == q + more
  {
    var all := Unroll(ring, head, |q| + |more|);
    forall k | 0 <= k < |q| + |more| ensures all[k] == (q + more)[k] {
      if k >= |q| {
        assert Wrap(head + k) == Wrap(tail + (k - |q|));
      }
    }
  }

  /** Moving the read index drops a prefix. */
  lemma Dropped(ring: seq<Byte>, head: nat, q: seq<Byte>, n: nat)
    requires |ring| == RING_SIZE && head < RING_SIZE && n <= |q| < RING_SIZE
    requires q == Unroll(ring, head, |q|)
    ensures Unroll(ring, Wrap(head + n), |q| - n) == q[n..]
  {
    var left := Unroll(ring, Wrap(head + n), |q| - n);
    forall k | 0 <= k < |q| - n ensures left[k] == q[n..][k] {
      assert Wrap(Wrap(head + n) + k) == Wrap(head + (n + k));
    }
  }
}
