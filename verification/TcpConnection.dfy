/** The client connection in the form the source gives it: handlers that update flags and two
    connection buffers in place. Each one is proved to perform exactly one step of module
    ConnectionModel. Operations handed to the socket and the history of the run are ghost. */
module TcpConnections {
  import opened Bytes
  import opened BufferModel
  import opened ConnectionBuffers
  import opened ConnectionModel

  class TcpConnection {
    const bufIn: ConnectionBuffer
    const bufOut: ConnectionBuffer
    var receiving: bool
    var sending: bool
    var state: Link

    /** Whether a close callback is set. */
    var closeCallback: bool

    ghost var postedReads: nat
    ghost var readOps: seq<ReadOp>
    ghost var writeOps: seq<WriteOp>
    ghost var received: Message
    ghost var submitted: Message
    ghost var wire: Message
    ghost var meant: Message
    ghost var sentSinceUp: bool
    ghost var strandedAtUp: bool
    ghost var failed: bool
    ghost var readFailed: bool
    ghost var endings: Endings

    /** The two buffers share neither indices nor storage, and the scheduling invariant holds. */
    ghost predicate Valid()
      reads this, bufIn, bufOut, bufIn.buffer, bufOut.buffer
    {
      && bufIn != bufOut && bufIn.buffer != bufOut.buffer
      && bufIn.Valid() && bufOut.Valid()
      && Inv(Current())
    }

    ghost function Current(): Conn
      requires bufIn.Valid() && bufOut.Valid()
      reads this, bufIn, bufOut, bufIn.buffer, bufOut.buffer
    {
      Conn(state, receiving, sending, closeCallback, bufIn.Value(), bufOut.Value(),
           postedReads, readOps, writeOps, received, submitted, wire, meant,
           sentSinceUp, strandedAtUp, failed, readFailed, endings)
    }

    constructor ()
      ensures Valid() && Current() == Init()
      ensures fresh(bufIn) && fresh(bufOut) && fresh(bufIn.buffer) && fresh(bufOut.buffer)
    {
      bufIn := new ConnectionBuffer(BUF_SIZE as uint32);
      bufOut := new ConnectionBuffer(BUF_SIZE as uint32);
      receiving, sending, state, closeCallback := false, false, Connecting, false;
      postedReads, readOps, writeOps := 0, [], [];
      received, submitted, wire, meant := [], [], [], [];
      sentSinceUp, strandedAtUp, failed, readFailed := false, false, false, false;
      endings := Endings(0, 0, 0, 0, 0);
      new;
      InitInv();
      hide Inv;
    }

    /** setConnState(CONNECTED), as the client calls it when connected. */
    method SetConnected()
      requires Valid()
      modifies this
      ensures Valid() && Current() == Step(old(Current()), Connect)
    {
      hide Inv;
      StepKeepsInv(Current(), Connect);
      if state != Connected {
        sentSinceUp := false;
        strandedAtUp := !sending && bufOut.ReadableCount() > 0;
      }
      state := Connected;
    }

    method SetCloseCallback(given: bool)
      requires Valid()
      modifies this
      ensures Valid() && Current() == Step(old(Current()), Event.SetCloseCallback(given))
    {
      StepKeepsInv(Current(), Event.SetCloseCallback(given));
      closeCallback := given;
    }

    method StartReceive()
      requires Valid()
      modifies this
      ensures Valid() && Current() == Step(old(Current()), Event.StartReceive)
    {
      StepKeepsInv(Current(), Event.StartReceive);
      if receiving {
        return;
      }
      postedReads := postedReads + 1;
      receiving := true;
    }

    /** async_read_some into the free part of the input buffer. */
    method ReceiveInService()
      requires bufIn.Valid()
      modifies this`readOps
      ensures readOps == old(readOps) +
                [ReadOp(bufIn.generation, bufIn.writeIndex as int, bufIn.Value().Writable())]
    {
      readOps := readOps +
        [ReadOp(bufIn.generation, bufIn.writeIndex as int, bufIn.WritableCount() as int)];
    }

    /** receiveInService as posted by startReceive. */
    method RunPostedReceive()
      requires Valid() && Enabled(Current(), RunReceive)
      modifies this
      ensures Valid() && Current() == Step(old(Current()), RunReceive)
    {
      StepKeepsInv(Current(), RunReceive);
      postedReads := postedReads - 1;
      ReceiveInService();
    }

    /** handleReceive without error. The data is what the socket has put where the outstanding read
        points; `skip` is what the receive callback retrieves, if one is set. */
    method HandleReceive(data: Message, skip: Skip, spare: nat)
      requires Valid() && Enabled(Current(), Received(data, skip, spare))
      modifies this, bufIn, bufIn.buffer
      ensures Valid() && Current() == Step(old(Current()), Received(data, skip, spare))
      ensures bufIn.buffer == old(bufIn.buffer) || fresh(bufIn.buffer)
    {
      hide Inv, Step, Enabled, Arrived, Called;
      ghost var before := Current();
      ReceptionStep(before, data, skip, spare);
      Absorb(data, skip, spare);
      readOps := readOps[1..];
      received := received + data;
      ReceiveInService();
      assert Current() == ReceivedStep(before, data, skip, spare);
    }

    /** What a reception does to the input buffer. */
    method Absorb(data: Message, skip: Skip, spare: nat)
      requires bufIn != bufOut && bufIn.buffer != bufOut.buffer && bufIn.Valid() && bufOut.Valid()
      requires readOps != [] && 2 * bufIn.size < TWO_32 && (skip.Skipped? ==> skip.count < TWO_32)
      requires readOps[0] == ReadOp(bufIn.generation, bufIn.writeIndex as int, bufIn.Value().Writable())
      requires |data| <= readOps[0].room
      modifies bufIn, bufIn.buffer
      ensures bufIn.buffer != bufOut.buffer && bufIn.Valid() && bufOut.Valid()
      ensures bufIn.buffer == old(bufIn.buffer) || fresh(bufIn.buffer)
      ensures Current() == old(Current()).(
                input := Called(Arrived(old(bufIn.Value()), readOps[0], data, spare), skip))
    {
      hide Arrived, Called;
      ghost var before := Current();
      TakeIn(bufIn, data, skip, spare, readOps[0]);
      assert bufOut.Value() == before.output;
    }

    /** What every end of the connection does: socket_.cancel() unless told otherwise, DISCONNECTED,
        and the close callback if there is one. */
    method End(cancel: bool)
      requires bufIn.Valid() && bufOut.Valid()
      modifies this`state, this`endings
      ensures Current() == Ended(old(Current()), cancel)
    {
      if cancel {
        endings := endings.(cancels := endings.cancels + 1);
      } else {
        endings := endings.(quiet := endings.quiet + 1);
      }
      state := Disconnected;
      if closeCallback {
        endings := endings.(notices := endings.notices + 1);
      } else {
        endings := endings.(silent := endings.silent + 1);
      }
    }

    ghost method FailRead()
      requires bufIn.Valid() && bufOut.Valid() && readOps != []
      modifies this`readOps, this`readFailed
      ensures Current() == old(Current()).(readOps := old(readOps)[1..], readFailed := true)
    {
      readOps := readOps[1..];
      readFailed := true;
    }

    /** handleReceive with an error: only an end of file that a callback can deal with leaves the
        socket's operations alone. */
    method HandleReceiveError(eof: bool)
      requires Valid() && Enabled(Current(), ReceiveFails(eof))
      modifies this
      ensures Valid() && Current() == Step(old(Current()), ReceiveFails(eof))
    {
      hide Inv, Step, Enabled, Ended;
      ghost var before := Current();
      EndingSteps(before, ReceiveFails(eof));
      FailRead();
      if eof && closeCallback {
        End(false);
      } else {
        End(true);
      }
    }

    method CloseInService()
      requires Valid()
      modifies this
      ensures Valid() && Current() == Step(old(Current()), Close)
    {
      hide Inv, Step, Ended;
      EndingSteps(Current(), Close);
      endings := endings.(closes := endings.closes + 1);
      End(true);
    }

    /** async_write of the readable bytes of the output buffer. */
    method AsyncWrite()
      requires bufOut.Valid()
      modifies this`writeOps
      ensures writeOps == old(writeOps) + [Whole(bufOut.Value())]
    {
      writeOps := writeOps + [Whole(bufOut.Value())];
    }

    /** buf_out_.append(data), and its history. */
    method AppendOutput(data: Message, spare: nat)
      requires bufIn != bufOut && bufIn.buffer != bufOut.buffer && bufIn.Valid() && bufOut.Valid()
      requires !Fits(bufOut.Value(), |data|) && !Shifts(bufOut.Value(), |data|) ==>
                 bufOut.size + GrowthFor(|data|) < TWO_32
      modifies this`submitted, this`sentSinceUp, bufOut, bufOut.buffer
      ensures bufIn.buffer != bufOut.buffer && bufIn.Valid() && bufOut.Valid()
      ensures bufOut.buffer == old(bufOut.buffer) || fresh(bufOut.buffer)
      ensures Current() == Submit(old(Current()), data, spare)
    {
      ghost var before := Current();
      hide Fits, Shifts, GrowthFor, BufferModel.Append;
      bufOut.Append(data, spare);
      assert bufIn.Value() == before.input;
      submitted := submitted + data;
      sentSinceUp := sentSinceUp || state == Connected;
    }

    method SendInService(data: Message, spare: nat)
      requires Valid() && Enabled(Current(), Send(data, spare))
      modifies this, bufOut, bufOut.buffer
      ensures Valid() && Current() == Step(old(Current()), Send(data, spare))
      ensures bufOut.buffer == old(bufOut.buffer) || fresh(bufOut.buffer)
    {
      hide Inv, Step, Enabled, Fits, Shifts, GrowthFor, BufferModel.Append;
      ghost var before := Current();
      HandlerSteps(before, Event.Send(data, spare));
      AppendOutput(data, spare);
      if !sending && state == Connected {
        AsyncWrite();
        sending := true;
      }
      assert Current() == SendStep(before, data, spare);
    }

    /** handleSend without error, after the socket took the whole write. */
    method HandleSend(bytesTransferred: uint32)
      requires Valid() && Enabled(Current(), Sent)
      requires bytesTransferred as int == writeOps[0].Len()
      modifies this, bufOut
      ensures Valid() && Current() == Step(old(Current()), Sent)
      ensures bufOut.buffer == old(bufOut.buffer)
    {
      hide Inv, Step, Enabled, BufferModel.RetrieveRead;
      ghost var before := Current();
      HandlerSteps(before, Sent);
      bufOut.RetrieveReadIndex(bytesTransferred);
      writeOps := writeOps[1..];
      if bufOut.ReadableCount() > 0 && state == Connected {
        AsyncWrite();
      } else {
        sending := false;
      }
      assert Current() == SentStep(before);
    }

    method HandleSendError()
      requires Valid() && Enabled(Current(), SendFails)
      modifies this
      ensures Valid() && Current() == Step(old(Current()), SendFails)
    {
      hide Inv, Step, Enabled, Ended;
      EndingSteps(Current(), SendFails);
      writeOps := writeOps[1..];
      failed := true;
      End(true);
    }
  }

  /** What handleReceive does to the input buffer, after the socket has put the data there. */
  method TakeIn(b: ConnectionBuffer, data: Message, skip: Skip, spare: nat, ghost op: ReadOp)
    requires b.Valid() && 2 * b.size < TWO_32
    requires op == ReadOp(b.generation, b.writeIndex as int, b.Value().Writable())
    requires |data| <= op.room
    requires skip.Skipped? ==> skip.count < TWO_32
    modifies b, b.buffer
    ensures b.Valid() && b.Value() == Called(Arrived(old(b.Value()), op, data, spare), skip)
    ensures b.buffer == old(b.buffer) || fresh(b.buffer)
  {
    ghost var before := b.Value();
    hide BufferModel.Adjust, BufferModel.RetrieveRead, Splice;
    b.CopyIn(b.writeIndex as int, data);
    assert b.Value() == Landed(before, op, data);
    b.RetrieveWriteIndex(|data| as uint32, spare);
    b.AdjustInternal();
    assert b.Value() == Arrived(before, op, data, spare);
    if skip.Skipped? {
      b.RetrieveReadIndex(skip.count as uint32);
    }
  }
}
