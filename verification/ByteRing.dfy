/**
 The bounded byte queue of lib/include/ring.h: a circular buffer with one slot kept empty.
 */
module ByteRing {
  import opened Common

  newtype byte = x: int | 0 <= x < 256

  lemma ModWrap(x: nat, n: nat)
    requires 0 < n && x < n + n
    ensures x % n == if x < n then x else x - n
  {
    var q := x / n;
    assert x == q * n + x % n;
    if q >= 2 {
      MulAtLeast(q - 1, n);
    }
  }

  /** An index in the circular buffer. */
  function Wrap(x: nat, n: nat): (r: nat)
    requires 0 < n && x < n + n
    ensures r == if x < n then x else x - n
  {
    ModWrap(x, n);
    x % n
  }

  class Ring {
    const ringSize: nat
    const buffer: array<byte>
    var front: nat
    var rear: nat

    ghost predicate Valid()
      reads this
    {
      0 < ringSize == buffer.Length && front < ringSize && rear < ringSize
    }

    /** The queued bytes, oldest first. */
    ghost function Contents(): (s: seq<byte>)
      requires Valid()
      reads this, buffer
      ensures |s| < ringSize
    {
      if front <= rear then buffer[front..rear] else buffer[front..] + buffer[..rear]
    }

    constructor (size: nat)
      requires 0 < size
      ensures Valid() && ringSize == size && Contents() == [] && fresh(buffer)
    {
      ringSize := size;
      buffer := new byte[size];
      front, rear := 0, 0;
    }

    /** ring_empty, ring_full and ring_length say what they are named after. */
    predicate Empty()
      requires Valid()
      reads this, buffer
      ensures Empty() <==> Contents() == []
    {
      front == rear
    }

    predicate Full()
      requires Valid()
      reads this, buffer
      ensures Full() <==> |Contents()| == ringSize - 1
    {
      Wrap(rear + 1, ringSize) == front
    }

    function Length(): (n: nat)
      requires Valid()
      reads this, buffer
      ensures n == |Contents()|
    {
      Wrap(rear + ringSize - front, ringSize)
    }

    /** One turn of the loop in write_ring. */
    method Put(x: byte)
      requires Valid() && !Full()
      modifies this`rear, buffer
      ensures Valid() && Contents() == old(Contents()) + [x]
    {
      buffer[rear] := x;
      rear := Wrap(rear + 1, ringSize);
    }

    /** One turn of the loop in read_ring. */
    method Take() returns (x: byte)
      requires Valid() && !Empty()
      modifies this`front
      ensures Valid() && x == old(Contents())[0] && Contents() == old(Contents())[1..]
    {
      x := buffer[front];
      front := Wrap(front + 1, ringSize);
    }

    /** write_ring: accept as many bytes as there is room for. */
    method Write(data: seq<byte>) returns (result: nat)
      requires Valid()
      modifies this`rear, buffer
      ensures Valid() && result == Min(|data|, ringSize - 1 - |old(Contents())|)
      ensures Contents() == old(Contents()) + data[..result]
    {
      hide Contents, Wrap;
      result := 0;
      while result < |data|
        invariant Valid() && result <= |data| && Contents() == old(Contents()) + data[..result]
      {
        if Full() {
          break;
        }
        Put(data[result]);
        result := result + 1;
      }
    }

    /** read_ring: deliver the oldest bytes, as many as there are. */
    method Read(size: nat) returns (data: seq<byte>)
      requires Valid()
      modifies this`front
      ensures Valid() && |data| == Min(size, |old(Contents())|)
      ensures data == old(Contents())[..|data|] && Contents() == old(Contents())[|data|..]
    {
      data := [];
      ghost var all := Contents();
      while |data| < size
        invariant Valid() && |data| <= size && |data| <= |all| && data == all[..|data|] && Contents() == all[|data|..]
        decreases size - |data|
      {
        if Empty() {
          break;
        }
        var x := Take();
        data := data + [x];
      }
    }
  }
}
