/** The growable connection buffer, in place: a vector as storage and a size, and two indices.
    Each method performs the operation of the same name of module BufferModel. Index arithmetic is
    in 32 bits, so that verifying a method also shows that its sums and differences stay in range. */
module ConnectionBuffers {
  import opened Bytes
  import opened BufferModel

  lemma MovedToFront(was: Message, now: Message, from: nat, n: nat)
    requires |now| == |was| && from + n <= |was|
    requires forall k :: 0 <= k < n ==> now[k] == was[from + k]
    requires forall k :: n <= k < |was| ==> now[k] == was[k]
    ensures now == Splice(was, 0, was[from..from + n])
  {
    var moved := was[from..from + n];
    assert forall k :: 0 <= k < n ==> moved[k] == was[from + k];
  }

  class ConnectionBuffer {
    /** The vector: its storage, as long as its capacity, and its size. */
    var buffer: array<byte>
    var size: nat
    var readIndex: uint32
    var writeIndex: uint32

    /** How often the storage has been replaced. */
    ghost var generation: nat

    ghost predicate Valid()
      reads this
    {
      readIndex <= writeIndex && writeIndex as int < size <= buffer.Length && size < TWO_32
    }

    ghost function Value(): Buf
      requires size <= buffer.Length
      reads this, buffer
    {
      Buf(buffer[..size], readIndex as int, writeIndex as int, generation, buffer.Length)
    }

    constructor (initial: uint32)
      requires 0 < initial
      ensures Valid() && Value() == NewBuf(initial as int) && fresh(buffer)
    {
      buffer := new byte[initial](_ => 0);
      size := initial as int;
      readIndex, writeIndex := 0, 0;
      generation := 0;
      new;
      assert buffer[..size] == NewBuf(initial as int).mem;
    }

    function WritableCount(): (n: uint32)
      requires Valid()
      reads this, buffer
      ensures n as int == Value().Writable()
    {
      size as uint32 - writeIndex
    }

    function ReadableCount(): (n: uint32)
      requires Valid()
      reads this, buffer
      ensures n as int == |Value().Live()|
    {
      writeIndex - readIndex
    }

    /** memcpy of foreign data to position at. */
    method CopyIn(at: nat, data: Message)
      requires at + |data| <= size <= buffer.Length
      modifies buffer
      ensures buffer[..size] == Splice(old(buffer[..size]), at, data)
    {
      for j := 0 to |data|
        invariant forall k :: 0 <= k < j ==> buffer[at + k] == data[k]
        invariant forall k :: 0 <= k < buffer.Length && !(at <= k < at + j) ==>
                    buffer[k] == old(buffer[k])
      {
        buffer[at + j] := data[j];
      }
    }

    /** memcpy(start(), readPtr(), readableCount()): the live bytes move to the front. */
    method MoveToFront()
      requires Valid()
      modifies buffer
      ensures buffer[..size] == ShiftDown(old(Value())).mem
    {
      var from, n := readIndex as int, (writeIndex - readIndex) as int;
      for j := 0 to n
        invariant forall k :: 0 <= k < j ==> buffer[k] == old(buffer[from + k])
        invariant forall k :: j <= k < buffer.Length ==> buffer[k] == old(buffer[k])
      {
        buffer[j] := buffer[from + j];
      }
      MovedToFront(old(buffer[..size]), buffer[..size], from, n);
    }

    /** vector::resize to a larger size: zeros behind the old elements, in the same storage while
        the capacity lasts, otherwise in new storage with whatever reserve the library takes. */
    method Resize(newSize: nat, spare: nat)
      requires size <= newSize && size <= buffer.Length
      modifies this`buffer, this`size, this`generation, buffer
      ensures size == newSize <= buffer.Length
      ensures Value() == Resized(old(Value()), newSize, spare)
      ensures buffer == old(buffer) || fresh(buffer)
    {
      if newSize > buffer.Length {
        var bigger := new byte[newSize + spare](_ => 0);
        CopyOut(bigger);
        buffer := bigger;
        generation := generation + 1;
      }
      FillZeros(newSize);
      size := newSize;
      assert buffer[..newSize] == Grow(old(buffer[..size]), newSize - old(size));
    }

    method CopyOut(target: array<byte>)
      requires size <= buffer.Length && size <= target.Length && target != buffer
      modifies target
      ensures target[..size] == buffer[..size]
    {
      for j := 0 to size
        invariant target[..j] == buffer[..j]
      {
        target[j] := buffer[j];
      }
    }

    method FillZeros(newSize: nat)
      requires size <= newSize <= buffer.Length
      modifies buffer
      ensures buffer[..size] == old(buffer[..size])
      ensures forall k :: size <= k < newSize ==> buffer[k] == 0
    {
      for j := size to newSize
        invariant forall k :: size <= k < j ==> buffer[k] == 0
        invariant buffer[..size] == old(buffer[..size])
      {
        buffer[j] := 0;
      }
    }

    method Append(data: Message, spare: nat)
      requires Valid()
      requires !Fits(Value(), |data|) && !Shifts(Value(), |data|) ==> size + GrowthFor(|data|) < TWO_32
      modifies this, buffer
      ensures Valid() && Value() == BufferModel.Append(old(Value()), data, spare)
      ensures buffer == old(buffer) || fresh(buffer)
    {
      ghost var before := Value();
      var datalen := |data|;
      if WritableCount() as int > datalen {
        PutBehind(data);
      } else if readIndex as int > size - writeIndex as int + datalen {
        ShiftMakesRoom(before, datalen);
        MoveToFront();
        writeIndex := writeIndex - readIndex;
        readIndex := 0;
        assert Value() == ShiftDown(before);
        PutBehind(data);
      } else {
        var count := datalen / BUF_SIZE + 1;
        GrowthIsEnough(datalen);
        Resize(size + BUF_SIZE * count, spare);
        PutBehind(data);
      }
    }

    /** memcpy(writePtr(), dataptr, datalen) and the write index moved behind it. */
    method PutBehind(data: Message)
      requires Valid() && writeIndex as int + |data| < size
      modifies this`writeIndex, buffer
      ensures Valid() && Value() == Put(old(Value()), data)
    {
      CopyIn(writeIndex as int, data);
      writeIndex := writeIndex + |data| as uint32;
    }

    method RetrieveReadIndex(count: uint32)
      requires Valid()
      modifies this`readIndex, this`writeIndex
      ensures Valid() && Value() == RetrieveRead(old(Value()), count as int)
    {
      readIndex := ((readIndex as int + count as int) % TWO_32) as uint32;
      if readIndex >= writeIndex {
        readIndex := 0;
        writeIndex := 0;
      }
    }

    method RetrieveWriteIndex(count: uint32, spare: nat)
      requires Valid() && writeIndex as int + count as int < TWO_32
      requires writeIndex as int + count as int >= size ==> 2 * size < TWO_32
      modifies this, buffer
      ensures Valid() && Value() == RetrieveWrite(old(Value()), count as int, spare)
      ensures buffer == old(buffer) || fresh(buffer)
    {
      writeIndex := writeIndex + count;
      if writeIndex as int >= size {
        writeIndex := size as uint32;
        Resize(size * 2, spare);
      }
    }

    method RetrieveBothIndex()
      requires Valid()
      modifies this`readIndex, this`writeIndex
      ensures Valid() && Value() == RetrieveBoth(old(Value()))
    {
      readIndex := 0;
      writeIndex := 0;
    }

    method AdjustInternal()
      requires Valid()
      modifies this`readIndex, this`writeIndex, buffer
      ensures Valid() && Value() == Adjust(old(Value()))
    {
      if readIndex as int >= size - writeIndex as int {
        MoveToFront();
        writeIndex := writeIndex - readIndex;
        readIndex := 0;
      }
    }
  }
}
