/**
 * The kernel pipe: a 32-byte ring buffer shared by a read end and a write
 * end, and the byte-transfer loops of `Pipe::read` and `Pipe::write`.
 */
module Pipes {
  import opened Types

  /** Capacity of the ring (`RING_BUFFER_SIZE`). */
  const RING_BUFFER_SIZE: nat := 32

  /** `RingBufferStatus`: whether `head == tail` means empty or full. */
  datatype RingBufferStatus = Full | Empty | Normal

  function Min(a: nat, b: nat): nat
  {
    if a <= b then a else b
  }

  /** The `n` bytes of the ring `a` from slot `h` on, wrapping round. */
  function Ring(a: seq<byte>, h: nat, n: nat): (s: seq<byte>)
    requires |a| == RING_BUFFER_SIZE && h < RING_BUFFER_SIZE && n <= RING_BUFFER_SIZE
    ensures |s| == n
  {
    seq(n, i requires 0 <= i < n => a[(h + i) % RING_BUFFER_SIZE])
  }

  /**
   * Storing `b` in the slot just past the `n` bytes from `h` appends `b`
   * to them and leaves them as they were.
   */
  lemma RingPush(a: seq<byte>, h: nat, n: nat, b: byte)
    requires |a| == RING_BUFFER_SIZE && h < RING_BUFFER_SIZE && n < RING_BUFFER_SIZE
    ensures Ring(a[(h + n) % RING_BUFFER_SIZE := b], h, n + 1) == Ring(a, h, n) + [b]
  {
    var t := (h + n) % RING_BUFFER_SIZE;
    var a1 := a[t := b];
    forall i | 0 <= i < n
      ensures Ring(a1, h, n + 1)[i] == Ring(a, h, n)[i]
    {
      assert (h + i) % RING_BUFFER_SIZE != t;
    }
  }

  /**
   * Taking the byte at `h` off the `n` bytes from `h` leaves the `n - 1`
   * bytes from the next slot.
   */
  lemma RingPop(a: seq<byte>, h: nat, n: nat)
    requires |a| == RING_BUFFER_SIZE && h < RING_BUFFER_SIZE && 0 < n <= RING_BUFFER_SIZE
    ensures Ring(a, h, n)[0] == a[h]
    ensures Ring(a, (h + 1) % RING_BUFFER_SIZE, n - 1) == Ring(a, h, n)[1..]
  {
    var h1 := (h + 1) % RING_BUFFER_SIZE;
    forall i | 0 <= i < n - 1
      ensures Ring(a, h1, n - 1)[i] == Ring(a, h, n)[1..][i]
    {
      assert (h1 + i) % RING_BUFFER_SIZE == (h + (i + 1)) % RING_BUFFER_SIZE;
    }
  }

  /**
   * `PipeRingBuffer`: the bytes written and not yet read sit in `arr` from
   * slot `head` on, wrapping round, and end just before slot `tail`;
   * `status` tells an empty ring from a full one when `head == tail`.
   */
  class PipeRingBuffer {
    const arr: array<byte>
    var head: nat
    var tail: nat
    var status: RingBufferStatus

    /** The representation invariant. */
    ghost predicate Valid()
      reads this
    {
      arr.Length == RING_BUFFER_SIZE &&
      head < RING_BUFFER_SIZE && tail < RING_BUFFER_SIZE &&
      (head == tail <==> status != Normal)
    }

    /** The bytes waiting to be read, oldest first. */
    ghost function Contents(): (s: seq<byte>)
      reads this, arr
      requires Valid()
      ensures |s| == AvailableRead()
    {
      Ring(arr[..], head, AvailableRead())
    }

    /** `PipeRingBuffer::new`: an empty ring of zeros. */
    constructor ()
      ensures Valid()
      ensures head == 0 && tail == 0 && status == Empty
      ensures arr[..] == seq(RING_BUFFER_SIZE, _ => 0)
      ensures AvailableRead() == 0 && Contents() == []
      ensures fresh(arr)
    {
      arr := new byte[RING_BUFFER_SIZE](_ => 0);
      head := 0;
      tail := 0;
      status := Empty;
    }

    /**
     * `available_read`: the number of bytes waiting, the distance from
     * `head` to `tail` round the ring, which is 0 exactly when the ring is
     * empty and the whole ring exactly when it is full.
     */
    function AvailableRead(): (r: nat)
      reads this
      requires Valid()
      ensures r <= RING_BUFFER_SIZE
      ensures tail == (head + r) % RING_BUFFER_SIZE
      ensures r == 0 <==> status == Empty
      ensures r == RING_BUFFER_SIZE <==> status == Full
    {
      if status == Empty then 0
      else if tail > head then tail - head
      else tail + RING_BUFFER_SIZE - head
    }

    /** `available_write`: the free slots; with the waiting bytes they fill the ring. */
    function AvailableWrite(): (w: nat)
      reads this
      requires Valid()
      ensures w + AvailableRead() == RING_BUFFER_SIZE
      ensures w == 0 <==> status == Full
    {
      if status == Full then 0 else RING_BUFFER_SIZE - AvailableRead()
    }

    /**
     * `write_byte`: store `b` at `tail` and advance `tail`; the ring is full
     * when `tail` catches up with `head`.  On a ring that is not full this
     * appends `b` to the waiting bytes.  On a full ring, which callers avoid
     * by checking `available_write`, it overwrites the oldest byte and
     * leaves `b` as the only waiting byte.
     */
    method WriteByte(b: byte)
      requires Valid()
      modifies this, arr
      ensures Valid()
      ensures arr[..] == old(arr[..])[old(tail) := b]
      ensures head == old(head) && tail == (old(tail) + 1) % RING_BUFFER_SIZE
      ensures status == if tail == head then Full else Normal
      ensures old(status) != Full ==> Contents() == old(Contents()) + [b]
      ensures old(status) != Full ==> AvailableRead() == old(AvailableRead()) + 1
      ensures old(status) == Full ==> Contents() == [b]
    {
      ghost var a0, n0, t0 := arr[..], AvailableRead(), tail;
      status := Normal;
      arr[tail] := b;
      tail := (tail + 1) % RING_BUFFER_SIZE;
      if tail == head {
        status := Full;
      }
      if n0 < RING_BUFFER_SIZE {
        RingPush(a0, head, n0, b);
        assert arr[..] == a0[t0 := b] && AvailableRead() == n0 + 1;
      }
    }

    /**
     * `read_byte`: return the byte at `head` and advance `head`; the ring is
     * empty when `head` catches up with `tail`.  On a ring that is not empty
     * this takes the oldest waiting byte.  On an empty ring, which callers
     * avoid by checking `available_read`, it returns a stale byte and leaves
     * 31 stale bytes waiting.
     */
    method ReadByte() returns (c: byte)
      requires Valid()
      modifies this
      ensures Valid()
      ensures c == arr[old(head)] && arr[..] == old(arr[..])
      ensures head == (old(head) + 1) % RING_BUFFER_SIZE && tail == old(tail)
      ensures status == if head == tail then Empty else Normal
      ensures old(status) != Empty ==> c == old(Contents())[0] && Contents() == old(Contents())[1..]
      ensures old(status) != Empty ==> AvailableRead() == old(AvailableRead()) - 1
      ensures old(status) == Empty ==> AvailableRead() == RING_BUFFER_SIZE - 1
    {
      ghost var n0 := AvailableRead();
      if n0 > 0 {
        RingPop(arr[..], head, n0);
      }
      status := Normal;
      c := arr[head];
      head := (head + 1) % RING_BUFFER_SIZE;
      if head == tail {
        status := Empty;
      }
    }
  }

  /** `Pipe`: one end of a pipe over a shared ring buffer. */
  class Pipe {
    const readable: bool
    const writable: bool
    const buffer: PipeRingBuffer

    /** `read_end_with_buffer`. */
    constructor ReadEnd(buffer: PipeRingBuffer)
      ensures readable && !writable && this.buffer == buffer
    {
      readable := true;
      writable := false;
      this.buffer := buffer;
    }

    /** `write_end_with_buffer`. */
    constructor WriteEnd(buffer: PipeRingBuffer)
      ensures !readable && writable && this.buffer == buffer
    {
      readable := false;
      writable := true;
      this.buffer := buffer;
    }

    /**
     * `read`: move waiting bytes into `dst` in order until `dst` is full or
     * the ring is empty, and report how many moved.  An inner pass moves at
     * most `available_read` bytes.  When nothing is waiting the source
     * either returns (every write end closed) or yields to the scheduler and
     * tries again; here it returns in both cases.
     */
    method Read(dst: array<byte>) returns (readSize: nat)
      requires readable && buffer.Valid() && dst != buffer.arr
      modifies buffer, dst
      ensures buffer.Valid()
      ensures readSize == Min(dst.Length, old(buffer.AvailableRead()))
      ensures dst[..readSize] == old(buffer.Contents())[..readSize]
      ensures dst[readSize..] == old(dst[readSize..])
      ensures buffer.Contents() == old(buffer.Contents())[readSize..]
    {
      ghost var c0 := buffer.Contents();
      ghost var d0 := dst[..];
      readSize := 0;
      while true
        invariant buffer.Valid() && readSize <= dst.Length && readSize <= |c0|
        invariant buffer.Contents() == c0[readSize..]
        invariant forall i :: 0 <= i < readSize ==> dst[i] == c0[i]
        invariant forall i :: readSize <= i < dst.Length ==> dst[i] == d0[i]
        decreases buffer.AvailableRead()
      {
        var loopRead := buffer.AvailableRead();
        if loopRead == 0 {
          return;
        }
        for k := 0 to loopRead
          invariant buffer.Valid() && readSize <= dst.Length && readSize <= |c0|
          invariant buffer.AvailableRead() == loopRead - k
          invariant buffer.Contents() == c0[readSize..]
          invariant forall i :: 0 <= i < readSize ==> dst[i] == c0[i]
          invariant forall i :: readSize <= i < dst.Length ==> dst[i] == d0[i]
        {
          if readSize < dst.Length {
            var c := buffer.ReadByte();
            dst[readSize] := c;
            readSize := readSize + 1;
          } else {
            return;
          }
        }
      }
    }

    /**
     * `write`: move bytes of `src` into the ring in order until `src` is
     * used up or the ring is full, and report how many moved.  An inner pass
     * moves at most `available_write` bytes.  When the ring is full the
     * source yields to the scheduler and tries again; here it returns.
     */
    method Write(src: seq<byte>) returns (writeSize: nat)
      requires writable && buffer.Valid()
      modifies buffer, buffer.arr
      ensures buffer.Valid()
      ensures writeSize == Min(|src|, old(buffer.AvailableWrite()))
      ensures buffer.Contents() == old(buffer.Contents()) + src[..writeSize]
    {
      ghost var c0 := buffer.Contents();
      writeSize := 0;
      while true
        invariant buffer.Valid() && writeSize <= |src|
        invariant buffer.Contents() == c0 + src[..writeSize]
        decreases buffer.AvailableWrite()
      {
        var loopWrite := buffer.AvailableWrite();
        if loopWrite == 0 {
          return;
        }
        for k := 0 to loopWrite
          invariant buffer.Valid() && writeSize <= |src|
          invariant buffer.AvailableWrite() == loopWrite - k
          invariant buffer.Contents() == c0 + src[..writeSize]
        {
          if writeSize < |src| {
            buffer.WriteByte(src[writeSize]);
            assert src[..writeSize + 1] == src[..writeSize] + [src[writeSize]];
            writeSize := writeSize + 1;
          } else {
            return;
          }
        }
      }
    }
  }
}
