/** The server session and its protocol handlers in the form the source gives them: methods
    updating a fixed read buffer, a cursor and a write queue. Each handler is proved to perform
    exactly one step of module SessionModel. */
module Sessions {
  import opened Bytes
  import opened Framing
  import opened Codec
  import opened SessionModel

  // ---------- prepare_send ----------

  /** The output vector a handler fills; `overrun` when it would write past its end. */
  method PrepareSend(p: Protocol, data: Message) returns (output: Message, overrun: bool)
    ensures overrun <==> !Encodable(p, data)
    ensures !overrun ==> output == Encode(p, data)
  {
    overrun := false;
    match p {
      case Line =>
        output := data;
        output := output + [CR];
        output := output + [LF];
      case Fixed(n) =>
        if |data| >= n {
          output := data[..n];
        } else {
          output := data;
          output := output + Zeros(n - |output|);
        }
      case Binary =>
        output, overrun := PrepareBinary(data);
    }
  }

  /** The 32-bit output size is the length needed, or too small. */
  lemma LengthModulo(n: nat)
    ensures 4 + n < TWO_32 ==> n % TWO_32 == n && (4 + n % TWO_32) % TWO_32 == 4 + n
    ensures TWO_32 <= 4 + n ==> (4 + n % TWO_32) % TWO_32 < 4 + n
  {
  }

  method PrepareBinary(data: Message) returns (output: Message, overrun: bool)
    ensures overrun <==> !Encodable(Binary, data)
    ensures !overrun ==> output == Encode(Binary, data)
  {
    overrun := false;
    var length := |data| % TWO_32;
    output := Zeros((4 + length) % TWO_32);
    LengthModulo(|data|);
    if |output| < 4 + |data| {
      overrun := true;
      return;
    }
    output := output[0 := (length / 0x100_0000 % 0x100) as byte];
    output := output[1 := (length / 0x1_0000 % 0x100) as byte];
    output := output[2 := (length / 0x100 % 0x100) as byte];
    output := output[3 := (length % 0x100) as byte];
    assert output[..4] == Header(|data|);
    output := output[..4] + data + output[4 + |data|..];
  }

  class Session {
    const proto: Protocol
    const readBuffer: array<byte>
    var readPos: nat
    var writeQueue: seq<Message>

    // what the io_context and the socket hold for this session
    var posted: seq<Message>
    var writing: seq<Message>
    var reading: bool
    var open: bool
    var faulted: bool

    ghost var chunks: seq<Message>
    ghost var delivered: seq<Message>
    ghost var wire: Message

    ghost predicate Valid()
      reads this, readBuffer
    {
      readBuffer.Length == CAPACITY && readPos <= CAPACITY && (faulted || WriteInv(Current()))
    }

    ghost function Current(): State
      reads this, readBuffer
      requires readBuffer.Length == CAPACITY && readPos <= CAPACITY
    {
      State(proto, readBuffer[..readPos], posted, writeQueue, writing, reading, open, faulted,
            chunks, delivered, wire)
    }

    constructor (p: Protocol)
      ensures Valid() && Current() == Init(p) && fresh(readBuffer)
    {
      proto := p;
      readBuffer := new byte[CAPACITY];
      readPos := 0;
      writeQueue, posted, writing := [], [], [];
      reading, open, faulted := true, true, false;
      chunks, delivered, wire := [], [], [];
    }

    /** process_line, process_frame and process_payload: the echo handler's answer is posted. */
    method Deliver(message: Message)
      modifies this`posted, this`delivered
      ensures posted == old(posted) + [Echo(message)]
      ensures delivered == old(delivered) + [message]
    {
      var response := ECHO_PREFIX + message;
      delivered := delivered + [message];
      SafeWrite(response);
    }

    method SafeWrite(data: Message)
      modifies this`posted
      ensures posted == old(posted) + [data]
    {
      posted := posted + [data];
    }

    // ---------- process_data ----------

    method ProcessLines(length: nat) returns (processed: nat)
      requires length <= readBuffer.Length
      modifies this`posted, this`delivered
      ensures var o := Process(Line, readBuffer[..length]);
              && processed == o.consumed
              && delivered == old(delivered) + o.messages
              && posted == old(posted) + Responses(o.messages)
    {
      hide Parse, Rest, Process, FrontOf, IndexOfLF;
      ghost var data := readBuffer[..length];
      ghost var found: seq<Message> := [];
      var start := 0;
      processed := 0;
      assert data[0..] == data;
      for i := 0 to length
        invariant processed == start <= i
        invariant start > 0 ==> data[start - 1] == LF
        invariant LF !in data[start..i]
        invariant delivered == old(delivered) + found
        invariant posted == old(posted) + Responses(found)
        invariant Parse(Line, data) == found + Parse(Line, data[start..])
        invariant Rest(Line, data) == Rest(Line, data[start..])
      {
        if readBuffer[i] == LF {
          var lineLength := i - start;
          if i > 0 && readBuffer[i - 1] == CR {
            lineLength := lineLength - 1;
          }
          var line := readBuffer[start..start + lineLength];
          LineEndsHere(data, start, i);
          CarriageReturnIsOurs(data, start, i);
          SliceOfPrefix(readBuffer[..], length, start, start + lineLength);
          Deliver(line);
          found := found + [line];
          processed := i + 1;
          start := i + 1;
        }
      }
      assert data[start..length] == data[start..];
      NoLineLeft(data, start, found);
    }

    method ProcessFixed(n: FrameSize, length: nat) returns (processed: nat)
      requires length <= readBuffer.Length
      modifies this`posted, this`delivered
      ensures var o := Process(Fixed(n), readBuffer[..length]);
              && processed == o.consumed
              && delivered == old(delivered) + o.messages
              && posted == old(posted) + Responses(o.messages)
    {
      if length < n {
        return 0;
      }
      var frame := readBuffer[..n];
      assert frame == readBuffer[..length][..n];
      Deliver(frame);
      processed := n;
    }

    method ProcessBinary(length: nat) returns (processed: nat, overrun: bool)
      requires length <= readBuffer.Length
      modifies this`posted, this`delivered
      ensures var o := Process(Binary, readBuffer[..length]);
              && (overrun <==> o.Overrun?)
              && (overrun ==> posted == old(posted) && delivered == old(delivered))
              && (!overrun ==>
                    && processed == o.consumed
                    && delivered == old(delivered) + o.messages
                    && posted == old(posted) + Responses(o.messages))
    {
      if length < 4 {
        return 0, false;
      }
      var payloadLength := readBuffer[0] as int * 0x100_0000 + readBuffer[1] as int * 0x1_0000
        + readBuffer[2] as int * 0x100 + readBuffer[3] as int;
      ghost var data := readBuffer[..length];
      assert payloadLength == Declared(data) && |data| == length;
      if length < (4 + payloadLength) % TWO_32 {
        return 0, false;
      }
      if length < 4 + payloadLength {
        return 0, true;
      }
      var payload := readBuffer[4..4 + payloadLength];
      SliceOfPrefix(readBuffer[..], length, 4, 4 + payloadLength);
      assert payload == data[4..4 + payloadLength];
      Deliver(payload);
      return 4 + payloadLength, false;
    }

    /** The virtual call `protocol_->process_data`. */
    method ProcessData(length: nat) returns (processed: nat, overrun: bool)
      requires length <= readBuffer.Length
      modifies this`posted, this`delivered
      ensures var o := Process(proto, readBuffer[..length]);
              && (overrun <==> o.Overrun?)
              && (overrun ==> posted == old(posted) && delivered == old(delivered))
              && (!overrun ==>
                    && processed == o.consumed
                    && delivered == old(delivered) + o.messages
                    && posted == old(posted) + Responses(o.messages))
    {
      overrun := false;
      match proto {
        case Line => processed := ProcessLines(length);
        case Fixed(n) => processed := ProcessFixed(n, length);
        case Binary => processed, overrun := ProcessBinary(length);
      }
    }

    // ---------- Completion handlers ----------

    /** memmove(read_buffer_, read_buffer_ + from, n): regions may overlap, so bytes move upwards. */
    method MoveDown(from: nat, n: nat)
      requires from + n <= readBuffer.Length
      modifies readBuffer
      ensures readBuffer[..n] == old(readBuffer[from..from + n])
    {
      for j := 0 to n
        invariant forall k :: 0 <= k < j ==> readBuffer[k] == old(readBuffer[from + k])
        invariant forall k :: j <= k < readBuffer.Length ==> readBuffer[k] == old(readBuffer[k])
      {
        readBuffer[j] := readBuffer[from + j];
      }
      assert forall k :: 0 <= k < n ==> readBuffer[..n][k] == old(readBuffer[from..from + n])[k];
    }

    /** The read completion handler of do_read; the chunk is what the socket put into the free
        part of the buffer. */
    method HandleRead(chunk: Message)
      requires Valid() && Enabled(Current(), Read(chunk))
      modifies this, readBuffer
      ensures Valid()
      ensures Current() == Step(old(Current()), Read(chunk))
    {
      ghost var before := Current();
      forall j | 0 <= j < |chunk| {
        readBuffer[readPos + j] := chunk[j];
      }
      readPos := readPos + |chunk|;
      assert readBuffer[..readPos] == before.residual + chunk;
      chunks := chunks + [chunk];

      hide Process;
      var processed, overrun := ProcessData(readPos);
      if overrun {
        faulted := true;
        return;
      }
      if processed > 0 {
        if processed < readPos {
          MoveDown(processed, readPos - processed);
        }
        readPos := readPos - processed;
      }
      assert readBuffer[..readPos] == (before.residual + chunk)[processed..];
    }

    method HandleReadEnd()
      requires Valid() && Enabled(Current(), ReadEnds)
      modifies this
      ensures Valid()
      ensures Current() == Step(old(Current()), ReadEnds)
    {
      reading := false;
    }

    method StartWriting()
      requires writeQueue != []
      modifies this`writing
      ensures writing == old(writing) + [writeQueue[0]]
    {
      writing := writing + [writeQueue[0]];
    }

    /** The task posted by safe_write. */
    method RunPostedWrite()
      requires Valid() && Enabled(Current(), RunPosted)
      modifies this
      ensures Valid()
      ensures Current() == Step(old(Current()), RunPosted)
    {
      var buffer, overrun := PrepareSend(proto, posted[0]);
      if overrun {
        faulted := true;
        return;
      }
      posted := posted[1..];
      var writeInProgress := writeQueue != [];
      writeQueue := writeQueue + [buffer];
      if !writeInProgress {
        StartWriting();
      }
    }

    /** The write completion handler of start_writing, after the whole buffer was sent. */
    method HandleWritten()
      requires Valid() && Enabled(Current(), WriteDone)
      modifies this
      ensures Valid()
      ensures Current() == Step(old(Current()), WriteDone)
    {
      wire := wire + writing[0];
      writing := writing[1..];
      writeQueue := writeQueue[1..];
      if writeQueue != [] {
        StartWriting();
      }
    }

    /** The same handler after an error, `sent` bytes into the buffer. */
    method HandleWriteError(sent: nat)
      requires Valid() && Enabled(Current(), WriteFails(sent))
      modifies this
      ensures Valid()
      ensures Current() == Step(old(Current()), WriteFails(sent))
    {
      wire := wire + writing[0][..sent];
      writing := writing[1..];
      writeQueue := [];
      open := false;
    }
  }

  // ---------- Lemmas of the line loop ----------

  lemma LineEndsHere(data: Message, start: nat, i: nat)
    requires start <= i < |data| && data[i] == LF && LF !in data[start..i]
    ensures Parse(Line, data[start..]) == [StripCR(data[start..i])] + Parse(Line, data[i + 1..])
    ensures Rest(Line, data[start..]) == Rest(Line, data[i + 1..])
  {
    var s := data[start..];
    LineFront(s, i - start);
    assert s[..i - start] == data[start..i] && s[i + 1 - start..] == data[i + 1..];
    hide FrontOf, Parse, Rest;
    ParseUnfold(Line, s);
  }

  /** The carriage return that the loop strips at a line feed belongs to the line that ends there:
      the length never drops below zero, and a line feed before the line is not mistaken for one. */
  lemma CarriageReturnIsOurs(data: Message, start: nat, i: nat)
    requires start <= i < |data| && (start > 0 ==> data[start - 1] == LF)
    ensures var length := i - start - (if i > 0 && data[i - 1] == CR then 1 else 0);
            0 <= length && data[start..start + length] == StripCR(data[start..i])
  {
  }

  lemma SliceOfPrefix(s: Message, n: nat, from: nat, to: nat)
    requires from <= to <= n <= |s|
    ensures s[..n][from..to] == s[from..to]
  {
  }

  lemma LineFront(s: Message, n: nat)
    requires n < |s| && s[n] == LF && LF !in s[..n]
    ensures FrontOf(Line, s) == Frame(StripCR(s[..n]), n + 1)
  {
  }

  lemma NoLineLeft(data: Message, start: nat, found: seq<Message>)
    requires start <= |data| && LF !in data[start..]
    requires Parse(Line, data) == found + Parse(Line, data[start..])
    requires Rest(Line, data) == Rest(Line, data[start..])
    ensures Process(Line, data) == Done(found, start)
  {
  }
}
