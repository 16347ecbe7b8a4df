/** RingBuffer, FiFo and pipes: circular arrays as queues. */
module RingBuffers {
  import opened Basics

  /** The elements between the read and the write position of a circular array, oldest first. */
  function Contents<T>(buf: seq<T>, write: nat, read: nat): (r: seq<T>)
    requires write < |buf| && read < |buf|
  {
    if write > read then buf[read + 1..write] else buf[read + 1..] + buf[..write]
  }

  function Next(p: nat, size: nat): (r: nat)
    requires p < size
    ensures r == if p + 1 == size then 0 else p + 1
  {
    (p + 1) % size
  }

  /** Full is where the positions meet, empty where the write position is next to be read. */
  lemma FullAndEmpty<T>(buf: seq<T>, write: nat, read: nat)
    requires write < |buf| && read < |buf|
    ensures |Contents(buf, write, read)| < |buf|
    ensures |Contents(buf, write, read)| == |buf| - 1 <==> write == read
    ensures Contents(buf, write, read) == [] <==> write == Next(read, |buf|)
  {
  }

  /** Writing at the write position appends, unless the buffer is full. */
  lemma PutAppends<T>(buf: seq<T>, write: nat, read: nat, x: T)
    requires write < |buf| && read < |buf| && write != read
    ensures Contents(buf[write := x], Next(write, |buf|), read) == Contents(buf, write, read) + [x]
  {
  }

  /** Moving the read position on drops the oldest element. */
  lemma GetDropsOldest<T>(buf: seq<T>, write: nat, read: nat)
    requires write < |buf| && read < |buf| && write != Next(read, |buf|)
    ensures Contents(buf, write, read) == [buf[Next(read, |buf|)]] + Contents(buf, write, Next(read, |buf|))
  {
    var next := Next(read, |buf|);
    if next == 0 {
      OldestFirst(buf, 0, write, []);
      assert buf[read + 1..] + buf[..write] == buf[0..write];
    } else if write > read {
      OldestFirst(buf, next, write, []);
    } else {
      OldestFirst(buf, next, |buf|, buf[..write]);
      assert buf[next..] == buf[next..|buf|] && buf[next + 1..] == buf[next + 1..|buf|];
    }
  }

  lemma OldestFirst<T>(buf: seq<T>, from: nat, to: nat, rest: seq<T>)
    requires from < to <= |buf|
    ensures buf[from..to] == [buf[from]] + buf[from + 1..to]
    ensures buf[from..to] + rest == [buf[from]] + (buf[from + 1..to] + rest)
  {
  }

  lemma OneMore<T>(queue: seq<T>, data: seq<T>, count: nat)
    requires count < |data|
    ensures queue + data[..count + 1] == queue + data[..count] + [data[count]]
  {
    assert data[..count + 1] == data[..count] + [data[count]];
  }

  class RingBuffer<T(0)> {
    const buffer: array<T>
    var writePos: nat
    var readPos: nat

    ghost predicate Valid()
      reads this
    {
      buffer.Length > 1 && writePos < buffer.Length && readPos < buffer.Length
    }

    /** The queue, oldest first. */
    ghost function Queue(): seq<T>
      requires Valid()
      reads this, buffer
    {
      Contents(buffer[..], writePos, readPos)
    }

    ghost function Capacity(): nat
      requires Valid()
      reads this
    {
      buffer.Length - 1
    }

    constructor (size: nat)
      requires size > 1
      ensures Valid() && fresh(buffer) && Queue() == [] && Capacity() == size - 1
    {
      buffer := new T[size];
      writePos, readPos := 1, 0;
    }

    method Put(c: T) returns (ok: bool)
      requires Valid()
      modifies this`writePos, buffer
      ensures Valid() && (ok <==> |old(Queue())| < Capacity())
      ensures Queue() == if ok then old(Queue()) + [c] else old(Queue())
    {
      FullAndEmpty(buffer[..], writePos, readPos);
      if writePos == readPos {
        return false;
      }
      PutAppends(buffer[..], writePos, readPos, c);
      ghost var was := buffer[..];
      buffer[writePos] := c;
      assert buffer[..] == was[writePos := c];
      writePos := Next(writePos, buffer.Length);
      return true;
    }

    method Get() returns (ok: bool, c: T)
      requires Valid()
      modifies this`readPos
      ensures Valid() && (ok <==> old(Queue()) != [])
      ensures if ok then old(Queue()) == [c] + Queue() else Queue() == old(Queue())
    {
      FullAndEmpty(buffer[..], writePos, readPos);
      var newReadPos := Next(readPos, buffer.Length);
      if writePos == newReadPos {
        ok, c := false, buffer[0];
        return;
      }
      GetDropsOldest(buffer[..], writePos, readPos);
      c := buffer[newReadPos];
      readPos := newReadPos;
      ok := true;
    }

    method Clear()
      requires Valid()
      modifies this`writePos, this`readPos
      ensures Valid() && Queue() == []
    {
      writePos, readPos := 1, 0;
    }

    /** writeToPipe: bytes up to the first that does not fit. */
    method WriteToPipe(data: seq<T>) returns (count: nat)
      requires Valid()
      modifies this`writePos, buffer
      ensures Valid() && count == Accepted(old(Queue()), data, Capacity())
      ensures Queue() == old(Queue()) + data[..count]
      ensures |Queue()| <= Capacity() && (count < |data| ==> |Queue()| == Capacity())
    {
      hide Contents;
      FullAndEmpty(buffer[..], writePos, readPos);
      count := 0;
      var more := true;
      assert Queue() + data[..0] == Queue();
      while count < |data| && more
        invariant Valid() && count <= |data|
        invariant Queue() == old(Queue()) + data[..count] && |Queue()| <= Capacity()
        invariant !more ==> |Queue()| == Capacity()
        decreases |data| - count, more
      {
        OneMore(old(Queue()), data, count);
        more := Put(data[count]);
        if more {
          count := count + 1;
        }
      }
    }

    /** readFromPipe: bytes up to the first that is not there. */
    method ReadFromPipe(count: nat) returns (data: seq<T>)
      requires Valid()
      modifies this`readPos
      ensures Valid() && |data| == Available(old(Queue()), count)
      ensures old(Queue()) == data + Queue()
      ensures |data| <= count && (|data| < count ==> Queue() == [])
    {
      hide Contents, Valid;
      data := [];
      var more := true;
      while |data| < count && more
        invariant Valid() && |data| <= count
        invariant old(Queue()) == data + Queue()
        invariant !more ==> Queue() == []
        decreases count - |data|, more
      {
        var c;
        more, c := Get();
        if more {
          assert data + ([c] + Queue()) == (data + [c]) + Queue();
          data := data + [c];
        }
      }
    }
  }

  function Min(a: nat, b: nat): nat {
    if a < b then a else b
  }

  /** How many bytes of a write fit: all, or as many as fill the pipe. */
  function Accepted<T>(queue: seq<T>, data: seq<T>, capacity: nat): (n: nat)
    ensures n <= |data|
    ensures |queue| <= capacity ==> |queue| + n <= capacity && (n < |data| ==> |queue| + n == capacity)
  {
    if |queue| < capacity then Min(|data|, capacity - |queue|) else 0
  }

  /** How many bytes a read gets: as many as it asks for, or all there are. */
  function Available<T>(queue: seq<T>, count: nat): (n: nat)
    ensures n <= |queue| && n <= count && (n < count ==> n == |queue|)
  {
    Min(|queue|, count)
  }

  // ---------------------------------------------------------------------
  // Runs of a pipe
  // ---------------------------------------------------------------------

  datatype PipeOp<T> = Write(data: seq<T>) | Read(count: nat)

  function AfterOp<T>(queue: seq<T>, op: PipeOp<T>, capacity: nat): seq<T> {
    match op
    case Write(d) => queue + d[..Accepted(queue, d, capacity)]
    case Read(n) => queue[Available(queue, n)..]
  }

  function WrittenBy<T>(queue: seq<T>, op: PipeOp<T>, capacity: nat): seq<T> {
    if op.Write? then op.data[..Accepted(queue, op.data, capacity)] else []
  }

  function ReadBy<T>(queue: seq<T>, op: PipeOp<T>): seq<T> {
    if op.Read? then queue[..Available(queue, op.count)] else []
  }

  /** All bytes that writes accept during a run. */
  function Written<T>(queue: seq<T>, ops: seq<PipeOp<T>>, capacity: nat): seq<T>
    decreases |ops|
  {
    if ops == [] then []
    else WrittenBy(queue, ops[0], capacity) + Written(AfterOp(queue, ops[0], capacity), ops[1..], capacity)
  }

  /** All bytes that reads return during a run. */
  function BytesRead<T>(queue: seq<T>, ops: seq<PipeOp<T>>, capacity: nat): seq<T>
    decreases |ops|
  {
    if ops == [] then []
    else ReadBy(queue, ops[0]) + BytesRead(AfterOp(queue, ops[0], capacity), ops[1..], capacity)
  }

  function AfterRun<T>(queue: seq<T>, ops: seq<PipeOp<T>>, capacity: nat): seq<T>
    decreases |ops|
  {
    if ops == [] then queue else AfterRun(AfterOp(queue, ops[0], capacity), ops[1..], capacity)
  }

  /** Over any run of pipe writes and reads, the bytes that were there and the bytes accepted are the
      bytes read and the bytes still there, in order; and the pipe never overfills. */
  lemma {:induction false} PipeConserves<T>(queue: seq<T>, ops: seq<PipeOp<T>>, capacity: nat)
    requires |queue| <= capacity
    ensures queue + Written(queue, ops, capacity) == BytesRead(queue, ops, capacity) + AfterRun(queue, ops, capacity)
    ensures |AfterRun(queue, ops, capacity)| <= capacity
    decreases |ops|
  {
    if ops != [] {
      OpConserves(queue, ops[0], capacity);
      var next := AfterOp(queue, ops[0], capacity);
      PipeConserves(next, ops[1..], capacity);
      hide AfterOp, WrittenBy, ReadBy;
      Chain(queue, WrittenBy(queue, ops[0], capacity), ReadBy(queue, ops[0]), next, Written(next, ops[1..], capacity),
            BytesRead(next, ops[1..], capacity), AfterRun(next, ops[1..], capacity));
    }
  }

  lemma OpConserves<T>(queue: seq<T>, op: PipeOp<T>, capacity: nat)
    requires |queue| <= capacity
    ensures queue + WrittenBy(queue, op, capacity) == ReadBy(queue, op) + AfterOp(queue, op, capacity)
    ensures |AfterOp(queue, op, capacity)| <= capacity
  {
  }

  // ---------------------------------------------------------------------
  // FiFo
  // ---------------------------------------------------------------------

  class FiFo<T(0)> {
    const buffer: array<T>
    const noBlock: bool           // FIFO_NOBLOCK_PUT
    const overwriteOld: bool      // FIFO_NOBLOCK_PUT_OVERWRITE_OLD
    var writePos: nat
    var readPos: nat

    ghost predicate Valid()
      reads this
    {
      buffer.Length > 1 && writePos < buffer.Length && readPos < buffer.Length
    }

    ghost function Queue(): seq<T>
      requires Valid()
      reads this, buffer
    {
      Contents(buffer[..], writePos, readPos)
    }

    ghost predicate Full()
      requires Valid()
      reads this, buffer
    {
      |Queue()| == buffer.Length - 1
    }

    constructor (size: nat, noBlock: bool, overwriteOld: bool)
      ensures Valid() && fresh(buffer) && Queue() == [] && this.noBlock == noBlock && this.overwriteOld == overwriteOld
      ensures buffer.Length == if size < 2 then 512 else size
    {
      buffer := new T[if size < 2 then 512 else size];
      this.noBlock, this.overwriteOld := noBlock, overwriteOld;
      writePos, readPos := 1, 0;
    }

    /** Into a full buffer, a put that must not block drops the oldest element if it may overwrite, and
        else the new one.  Any other waits on space_to_write_, and goes through this again once woken. */
    method Put(c: T) returns (waits: bool)
      requires Valid()
      modifies this`writePos, this`readPos, buffer
      ensures Valid() && (waits <==> old(Full()) && !noBlock)
      ensures Queue() ==
              if !old(Full()) then old(Queue()) + [c]
              else if noBlock && overwriteOld then old(Queue())[1..] + [c]
              else old(Queue())
    {
      ghost var queue := Queue();
      FullAndEmpty(buffer[..], writePos, readPos);
      if writePos == readPos {
        if !noBlock {
          return true;
        }
        if !overwriteOld {
          return false;
        }
        GetDropsOldest(buffer[..], writePos, readPos);
        readPos := Next(readPos, buffer.Length);
        assert Queue() == queue[1..];
      }
      PutAppends(buffer[..], writePos, readPos, c);
      ghost var was := buffer[..];
      buffer[writePos] := c;
      assert buffer[..] == was[writePos := c];
      writePos := Next(writePos, buffer.Length);
      return false;
    }

    /** From an empty buffer a get waits on something_to_read_, and goes through this again once
        woken. */
    method Get() returns (waits: bool, c: T)
      requires Valid()
      modifies this`readPos
      ensures Valid() && (waits <==> old(Queue()) == [])
      ensures if waits then Queue() == old(Queue()) else old(Queue()) == [c] + Queue()
    {
      FullAndEmpty(buffer[..], writePos, readPos);
      c := buffer[Next(readPos, buffer.Length)];
      if writePos == Next(readPos, buffer.Length) {
        return true, c;
      }
      GetDropsOldest(buffer[..], writePos, readPos);
      readPos := Next(readPos, buffer.Length);
      c := buffer[readPos];
      waits := false;
    }

    method PeekAhead() returns (ok: bool, c: T)
      requires Valid()
      ensures ok <==> Queue() != []
      ensures ok ==> Queue()[0] == c
    {
      FullAndEmpty(buffer[..], writePos, readPos);
      c := buffer[Next(readPos, buffer.Length)];
      if writePos == Next(readPos, buffer.Length) {
        return false, c;
      }
      GetDropsOldest(buffer[..], writePos, readPos);
      ok := true;
    }

    method Clear()
      requires Valid()
      modifies this`writePos, this`readPos
      ensures Valid() && Queue() == []
    {
      writePos, readPos := 1, 0;
    }
  }
}
