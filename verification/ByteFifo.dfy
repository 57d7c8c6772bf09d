/** The byte queue with a size, src/lib/fifosize.c. */
module ByteFifo {
  import opened Ring

  type Byte = b: int | 0 <= b < 256
  const FAILED := 0xFFFF_FFFF    // (uint32_t)-1

  /** The `n` bytes queued from `front` on, oldest first. */
  function Window(buf: seq<Byte>, front: nat, n: nat): (w: seq<Byte>)
    requires n <= |buf| && (n > 0 ==> front < |buf|)
    ensures |w| == n
  {
    seq(n, i requires 0 <= i < n => buf[Slot(front, i, |buf|)])
  }

  lemma WindowPush(buf: seq<Byte>, front: nat, n: nat, rear: nat, b: Byte)
    requires n < |buf| && front < |buf| && rear == Slot(front, n, |buf|)
    ensures Window(buf[rear := b], front, n + 1) == Window(buf, front, n) + [b]
  {
    SlotsDistinct(front, |buf|, n);
  }

  lemma WindowPop(buf: seq<Byte>, front: nat, n: nat)
    requires 0 < n <= |buf| && front < |buf|
    ensures buf[front] == Window(buf, front, n)[0]
    ensures Window(buf, Slot(front, 1, |buf|), n - 1) == Window(buf, front, n)[1..]
  {
  }

  lemma SlotShift(front: nat, size: nat, n: nat)
    requires front < size && 0 < n <= size
    ensures Slot(Slot(front, 1, size), n - 1, size) == Slot(front, n, size) && Slot(front, 0, size) == front
  {
  }

  class Queue {
    const buffer: array<Byte>
    var size: nat
    var front: nat
    var rear: nat

    ghost predicate Valid()
      reads this, buffer
    {
      && size <= buffer.Length
      && (buffer.Length > 0 ==> front < buffer.Length && rear == Slot(front, size, buffer.Length))
    }

    ghost function Contents(): (w: seq<Byte>)
      requires Valid()
      reads this, buffer
      ensures |w| == size
    {
      Window(buffer[..], front, size)
    }

    constructor (capacity: nat)
      ensures Valid() && Contents() == [] && fresh(buffer) && buffer.Length == capacity
    {
      buffer := new Byte[capacity];
      size, front, rear := 0, 0, 0;
    }

    method GetSize() returns (n: nat)
      requires Valid()
      ensures n == |Contents()|
    {
      n := size;
    }

    method GetFree() returns (n: nat)
      requires Valid()
      ensures n == buffer.Length - |Contents()|
    {
      n := buffer.Length - size;
    }

    /** One turn of the enqueue loop. */
    method PutByte(b: Byte)
      requires Valid() && size < buffer.Length
      modifies this`size, this`rear, buffer
      ensures Valid() && size == old(size) + 1 && Contents() == old(Contents()) + [b]
    {
      ghost var buf := buffer[..];
      WindowPush(buf, front, size, rear, b);
      SlotStep(front, buffer.Length, size);
      buffer[rear] := b;
      assert buffer[..] == buf[rear := b];
      rear := (rear + 1) % buffer.Length;
      size := size + 1;
    }

    /** One turn of the dequeue loop. */
    method TakeByte() returns (b: Byte)
      requires Valid() && size > 0
      modifies this`size, this`front
      ensures Valid() && size == old(size) - 1 && b == old(Contents())[0] && Contents() == old(Contents())[1..]
    {
      WindowPop(buffer[..], front, size);
      SlotStep(front, buffer.Length, 0);
      SlotShift(front, buffer.Length, size);
      b := buffer[front];
      front := (front + 1) % buffer.Length;
      size := size - 1;
    }

    /** queueSize_enqueue: all the bytes or none. */
    method Enqueue(data: seq<Byte>) returns (r: nat)
      requires Valid() && buffer.Length < FAILED
      modifies this`size, this`rear, buffer
      ensures Valid()
      ensures r == if 0 < |data| <= buffer.Length - old(size) then |data| else FAILED
      ensures Contents() == if r == FAILED then old(Contents()) else old(Contents()) + data
    {
      if |data| == 0 || |data| > buffer.Length - size {
        return FAILED;
      }
      ghost var before := Contents();
      for i := 0 to |data|
        invariant Valid() && size == old(size) + i && Contents() == before + data[..i]
      {
        assert before + data[..i] + [data[i]] == before + data[..i + 1];
        PutByte(data[i]);
      }
      assert data[..|data|] == data;
      r := |data|;
    }

    /** queueSize_dequeue: the oldest `n` bytes in order, or nothing. */
    method Dequeue(n: nat, out: array<Byte>) returns (r: nat)
      requires Valid() && out != buffer && n <= out.Length && buffer.Length < FAILED
      modifies this`size, this`front, out
      ensures Valid()
      ensures r == if 0 < n <= old(size) then n else FAILED
      ensures r == FAILED ==> Contents() == old(Contents()) && out[..] == old(out[..])
      ensures r != FAILED ==> out[..n] == old(Contents())[..n] && out[n..] == old(out[n..]) && Contents() == old(Contents())[n..]
    {
      if n == 0 || n > size {
        return FAILED;
      }
      hide Window;
      ghost var before, o := Contents(), out[..];
      for i := 0 to n
        invariant Valid() && size == old(size) - i && Contents() == before[i..]
        invariant forall x :: 0 <= x < out.Length ==> out[x] == if x < i then before[x] else o[x]
      {
        assert before[i..][1..] == before[i + 1..];
        out[i] := TakeByte();
      }
      r := n;
    }
  }
}
