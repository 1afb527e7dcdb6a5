/** The client connection as a step system: the completion handlers of one connection, the two
    buffers they share with the socket, and the socket reading an outstanding write's bytes from
    memory while further handlers run. */
module ConnectionModel {
  import opened Bytes
  import opened BufferModel

  datatype Link = Connecting | Connected | Disconnecting | Disconnected

  /** An outstanding read into `room` bytes at `at` of one storage generation. */
  datatype ReadOp = ReadOp(generation: nat, at: nat, room: nat)

  /** An outstanding write at `at`, of which the socket has taken `sent` bytes. The snapshot is
      what its bytes were when it was launched. */
  datatype WriteOp = WriteOp(generation: nat, at: nat, sent: nat, snapshot: Message) {
    function Len(): nat { |snapshot| }
  }

  /** How often a connection has ended: calls of closeInService, calls of the close callback, ends
      without one, socket_.cancel() calls, and ends that left the socket's operations alone. */
  datatype Endings = Endings(closes: nat, notices: nat, silent: nat, cancels: nat, quiet: nat) {
    function Another(cancel: bool, callback: bool): Endings {
      this.(cancels := cancels + (if cancel then 1 else 0), quiet := quiet + (if cancel then 0 else 1),
            notices := notices + (if callback then 1 else 0), silent := silent + (if callback then 0 else 1))
    }
  }

  /** The fields from `received` on are history. Of the stream: bytes received, bytes given to
      sendInService, bytes the peer got, and the bytes it would have got from the snapshots. Of
      the link: whether something was sent since CONNECTED was entered, whether the connection was
      then idle with bytes left to send, which operation failed, and how it ended. */
  datatype Conn = Conn(
    link: Link, receiving: bool, sending: bool, callback: bool, input: Buf, output: Buf,
    postedReads: nat, readOps: seq<ReadOp>, writeOps: seq<WriteOp>,
    received: Message, submitted: Message, wire: Message, meant: Message,
    sentSinceUp: bool, strandedAtUp: bool, failed: bool, readFailed: bool, endings: Endings)

  datatype Event =
    | Connect
    | SetCloseCallback(given: bool)
    | StartReceive
    | RunReceive
    | Received(data: Message, skip: Skip, spare: nat)
    | ReceiveFails(eof: bool)
    | Send(data: Message, spare: nat)
    | Transmit(bytes: Message)
    | Sent
    | SendFails
    | Close

  function Init(): Conn {
    Conn(Connecting, false, false, false, NewBuf(BUF_SIZE), NewBuf(BUF_SIZE), 0, [], [],
         [], [], [], [], false, false, false, false, Endings(0, 0, 0, 0, 0))
  }

  ghost predicate BuffersValid(s: Conn) {
    && s.input.Valid() && |s.input.mem| < TWO_32
    && s.output.Valid() && |s.output.mem| < TWO_32
  }

  /** The bytes the socket still has to read for a write. A storage that was given up holds
      nothing one may rely on. */
  predicate Readable(b: Buf, op: WriteOp) {
    op.generation == b.generation && op.sent <= op.Len() && op.at + op.Len() <= |b.mem|
  }

  function Unsent(b: Buf, op: WriteOp): Message
    requires Readable(b, op)
  {
    b.mem[op.at + op.sent..op.at + op.Len()]
  }

  /** What the socket's bytes do to the input buffer before the handler runs. */
  function Landed(b: Buf, op: ReadOp, data: Message): Buf {
    if op.generation == b.generation && op.at + |data| <= |b.mem|
    then b.(mem := Splice(b.mem, op.at, data)) else b
  }

  /** The input buffer after retrieveWriteIndex and adjustInternal, as the callback finds it. */
  function Arrived(b: Buf, op: ReadOp, data: Message, spare: nat): Buf
    requires b.Valid()
  {
    Adjust(RetrieveWrite(Landed(b, op, data), |data|, spare))
  }

  /** What an append needs of the buffer's size. */
  predicate GrowthAllowed(b: Buf, n: nat)
    requires b.w <= |b.mem|
  {
    !Fits(b, n) && !Shifts(b, n) ==> |b.mem| + GrowthFor(n) < TWO_32
  }

  /** What the environment may do. A read brings at most its room; the socket takes an outstanding
      write's bytes in order, from memory as it is then; and buffer sizes stay below 2^32. */
  ghost predicate Enabled(s: Conn, e: Event) {
    && BuffersValid(s)
    && match e
       case RunReceive => s.postedReads > 0
       case Received(data, skip, _) =>
         && s.readOps != [] && |data| <= s.readOps[0].room && 2 * |s.input.mem| < TWO_32
         && (skip.Skipped? ==> skip.count < TWO_32)
       case ReceiveFails(_) => s.readOps != []
       case Send(data, _) => GrowthAllowed(s.output, |data|)
       case Transmit(bytes) =>
         && s.writeOps != [] && s.writeOps[0].sent + |bytes| <= s.writeOps[0].Len()
         && (Readable(s.output, s.writeOps[0]) ==> bytes <= Unsent(s.output, s.writeOps[0]))
       case Sent => s.writeOps != [] && s.writeOps[0].sent == s.writeOps[0].Len()
       case SendFails => s.writeOps != []
       case _ => true
  }

  /** receiveInService */
  function ArmRead(s: Conn): Conn
    requires s.input.w <= |s.input.mem|
  {
    s.(readOps := s.readOps + [ReadOp(s.input.generation, s.input.w, s.input.Writable())])
  }

  function Whole(b: Buf): WriteOp
    requires b.r <= b.w <= |b.mem|
  {
    WriteOp(b.generation, b.r, 0, b.Live())
  }

  /** async_write of everything readable */
  function Launch(s: Conn): Conn
    requires s.output.r <= s.output.w <= |s.output.mem|
  {
    s.(writeOps := s.writeOps + [Whole(s.output)], sending := true)
  }

  function ReceivedStep(s: Conn, data: Message, skip: Skip, spare: nat): Conn
    requires s.readOps != [] && s.input.Valid()
  {
    ArmRead(s.(input := Called(Arrived(s.input, s.readOps[0], data, spare), skip),
               readOps := s.readOps[1..], received := s.received + data))
  }

  function Submit(s: Conn, data: Message, spare: nat): Conn
    requires s.output.Valid()
  {
    s.(output := Append(s.output, data, spare), submitted := s.submitted + data,
       sentSinceUp := s.sentSinceUp || s.link == Connected)
  }

  function SendStep(s: Conn, data: Message, spare: nat): Conn
    requires s.output.Valid()
  {
    var t := Submit(s, data, spare);
    if !s.sending && s.link == Connected then Launch(t) else t
  }

  function TransmitStep(s: Conn, bytes: Message): Conn
    requires s.writeOps != [] && s.writeOps[0].sent + |bytes| <= s.writeOps[0].Len()
  {
    var op := s.writeOps[0];
    s.(wire := s.wire + bytes,
       meant := s.meant + op.snapshot[op.sent..op.sent + |bytes|],
       writeOps := s.writeOps[0 := op.(sent := op.sent + |bytes|)])
  }

  function Completed(s: Conn): Conn
    requires s.writeOps != []
  {
    s.(output := RetrieveRead(s.output, s.writeOps[0].Len()), writeOps := s.writeOps[1..],
       sending := false)
  }

  function SentStep(s: Conn): Conn
    requires s.writeOps != [] && s.output.Valid()
  {
    var t := Completed(s);
    if |t.output.Live()| > 0 && s.link == Connected then Launch(t) else t
  }

  /** The end of a connection: the socket's operations are cancelled unless the callback is left
      to deal with an end of file, and the callback is called if there is one. */
  function Ended(s: Conn, cancel: bool): Conn {
    s.(link := Disconnected, endings := s.endings.Another(cancel, s.callback))
  }

  function Closing(s: Conn): Conn { s.(endings := s.endings.(closes := s.endings.closes + 1)) }

  /** An event that is not enabled cannot happen; it leaves the state alone. */
  ghost function Step(s: Conn, e: Event): Conn {
    if !Enabled(s, e) then s
    else
      match e
      case Connect =>
        if s.link == Connected then s
        else s.(link := Connected, sentSinceUp := false,
                strandedAtUp := !s.sending && s.output.Live() != [])
      case SetCloseCallback(given) => s.(callback := given)
      case StartReceive =>
        if s.receiving then s else s.(postedReads := s.postedReads + 1, receiving := true)
      case RunReceive => ArmRead(s.(postedReads := s.postedReads - 1))
      case Received(data, skip, spare) => ReceivedStep(s, data, skip, spare)
      case ReceiveFails(eof) =>
        Ended(s.(readOps := s.readOps[1..], readFailed := true), !(eof && s.callback))
      case Send(data, spare) => SendStep(s, data, spare)
      case Transmit(bytes) => TransmitStep(s, bytes)
      case Sent => SentStep(s)
      case SendFails => Ended(s.(writeOps := s.writeOps[1..], failed := true), true)
      case Close => Ended(Closing(s), true)
  }

  ghost function After(s: Conn, events: seq<Event>): Conn
    decreases |events|
  {
    if events == [] then s else After(Step(s, events[0]), events[1..])
  }

  ghost function Reached(events: seq<Event>): Conn { After(Init(), events) }

  lemma {:induction false} AfterConcat(s: Conn, a: seq<Event>, b: seq<Event>)
    ensures After(s, a + b) == After(After(s, a), b)
    decreases |a|
  {
    if a == [] {
      assert a + b == b;
    } else {
      assert (a + b)[1..] == a[1..] + b;
      AfterConcat(Step(s, a[0]), a[1..], b);
    }
  }

  lemma OneStep(s: Conn, a: Event)
    ensures After(s, [a]) == Step(s, a)
  {
    hide Step;
    assert [a][1..] == [];
    assert After(Step(s, a), []) == Step(s, a);
  }

  lemma TwoSteps(s: Conn, a: Event, b: Event)
    ensures After(s, [a, b]) == Step(Step(s, a), b)
  {
    hide *;
    assert [a, b] == [a] + [b];
    AfterConcat(s, [a], [b]);
    OneStep(s, a);
    OneStep(Step(s, a), b);
  }

  lemma ThreeSteps(s: Conn, a: Event, b: Event, c: Event)
    ensures After(s, [a, b, c]) == Step(Step(Step(s, a), b), c)
  {
    hide *;
    assert [a, b, c] == [a, b] + [c];
    AfterConcat(s, [a, b], [c]);
    TwoSteps(s, a, b);
    OneStep(Step(Step(s, a), b), c);
  }

  lemma FourSteps(s: Conn, a: Event, b: Event, c: Event, d: Event)
    ensures After(s, [a, b, c, d]) == Step(Step(Step(Step(s, a), b), c), d)
  {
    hide *;
    assert [a, b, c, d] == [a, b] + [c, d];
    AfterConcat(s, [a, b], [c, d]);
    TwoSteps(s, a, b);
    TwoSteps(Step(Step(s, a), b), c, d);
  }

  // ---------- Frames ----------

  /** What each event leaves alone. */
  lemma Frames(s: Conn, e: Event)
    ensures var t := Step(s, e);
            if !Enabled(s, e) then t == s
            else match e
              case Connect =>
                t == s.(link := Connected, sentSinceUp := t.sentSinceUp, strandedAtUp := t.strandedAtUp)
              case SetCloseCallback(given) => t == s.(callback := given)
              case StartReceive =>
                t == if s.receiving then s else s.(postedReads := s.postedReads + 1, receiving := true)
              case RunReceive => t == ArmRead(s.(postedReads := s.postedReads - 1))
              case Received(data, _, _) =>
                t == s.(input := t.input, readOps := t.readOps, received := s.received + data)
              case Send(data, spare) =>
                t == s.(output := Append(s.output, data, spare), writeOps := t.writeOps,
                        sending := t.sending, submitted := s.submitted + data,
                        sentSinceUp := s.sentSinceUp || s.link == Connected)
              case Transmit(bytes) =>
                && t == s.(wire := s.wire + bytes, meant := t.meant, writeOps := t.writeOps)
                && t == TransmitStep(s, bytes)
              case Sent =>
                t == s.(output := RetrieveRead(s.output, s.writeOps[0].Len()), writeOps := t.writeOps,
                        sending := t.sending)
              case ReceiveFails(eof) =>
                t == s.(link := Disconnected, readOps := s.readOps[1..], readFailed := true,
                        endings := s.endings.Another(!(eof && s.callback), s.callback))
              case SendFails =>
                t == s.(link := Disconnected, writeOps := s.writeOps[1..], failed := true,
                        endings := s.endings.Another(true, s.callback))
              case Close =>
                t == s.(link := Disconnected,
                        endings := s.endings.(closes := s.endings.closes + 1).Another(true, s.callback))
  {
    if Enabled(s, e) {
      match e
      case Connect => ConnectFrame(s);
      case SetCloseCallback(given) => CallbackFrame(s, given);
      case StartReceive => StartFrame(s);
      case RunReceive => RunFrame(s);
      case Received(data, skip, spare) => ReceivedFrame(s, data, skip, spare);
      case Send(data, spare) => SendFrame(s, data, spare);
      case Transmit(bytes) => TransmitFrame(s, bytes);
      case Sent => SentFrame(s);
      case ReceiveFails(eof) => ReceiveFailsFrame(s, eof);
      case SendFails => SendFailsFrame(s);
      case Close => CloseFrame(s);
    }
    hide Step, Enabled, Append, RetrieveRead;
  }

  lemma ConnectFrame(s: Conn)
    requires Enabled(s, Connect)
    ensures var t := Step(s, Connect);
            t == s.(link := Connected, sentSinceUp := t.sentSinceUp, strandedAtUp := t.strandedAtUp)
  {
  }

  lemma CallbackFrame(s: Conn, given: bool)
    requires Enabled(s, SetCloseCallback(given))
    ensures Step(s, SetCloseCallback(given)) == s.(callback := given)
  {
  }

  lemma StartFrame(s: Conn)
    requires Enabled(s, StartReceive)
    ensures Step(s, StartReceive) ==
            if s.receiving then s else s.(postedReads := s.postedReads + 1, receiving := true)
  {
  }

  lemma RunFrame(s: Conn)
    requires Enabled(s, RunReceive)
    ensures Step(s, RunReceive) == ArmRead(s.(postedReads := s.postedReads - 1))
  {
  }

  lemma TransmitFrame(s: Conn, bytes: Message)
    requires Enabled(s, Transmit(bytes))
    ensures var t := Step(s, Transmit(bytes));
            && t == s.(wire := s.wire + bytes, meant := t.meant, writeOps := t.writeOps)
            && t == TransmitStep(s, bytes)
  {
    hide Readable, Unsent;
  }

  lemma ReceiveFailsFrame(s: Conn, eof: bool)
    requires Enabled(s, ReceiveFails(eof))
    ensures var t := Step(s, ReceiveFails(eof));
            t == s.(link := Disconnected, readOps := s.readOps[1..], readFailed := true,
                    endings := s.endings.Another(!(eof && s.callback), s.callback))
  {
  }

  lemma SendFailsFrame(s: Conn)
    requires Enabled(s, SendFails)
    ensures var t := Step(s, SendFails);
            t == s.(link := Disconnected, writeOps := s.writeOps[1..], failed := true,
                    endings := s.endings.Another(true, s.callback))
  {
  }

  lemma CloseFrame(s: Conn)
    requires Enabled(s, Close)
    ensures Step(s, Close) ==
            s.(link := Disconnected,
               endings := s.endings.(closes := s.endings.closes + 1).Another(true, s.callback))
  {
  }

  lemma ReceivedFrame(s: Conn, data: Message, skip: Skip, spare: nat)
    requires Enabled(s, Received(data, skip, spare))
    ensures var t := Step(s, Received(data, skip, spare));
            t == s.(input := t.input, readOps := t.readOps, received := s.received + data)
  {
    hide Arrived, Called;
  }

  lemma SendFrame(s: Conn, data: Message, spare: nat)
    requires Enabled(s, Send(data, spare))
    ensures var t := Step(s, Send(data, spare));
            t == s.(output := Append(s.output, data, spare), writeOps := t.writeOps,
                    sending := t.sending, submitted := s.submitted + data,
                    sentSinceUp := s.sentSinceUp || s.link == Connected)
  {
    hide Append;
  }

  lemma SentFrame(s: Conn)
    requires Enabled(s, Sent)
    ensures var t := Step(s, Sent);
            t == s.(output := RetrieveRead(s.output, s.writeOps[0].Len()), writeOps := t.writeOps,
                    sending := t.sending)
  {
    hide RetrieveRead;
  }

  // ---------- The invariant ----------

  predicate ReadSchedule(s: Conn)
    requires s.input.w <= |s.input.mem|
  {
    && |s.readOps| + s.postedReads <= 1
    && (!s.receiving ==> s.readOps == [] && s.postedReads == 0 && !s.readFailed)
    && (s.readFailed ==> s.readOps == [] && s.postedReads == 0)
    && (s.receiving && !s.readFailed ==> |s.readOps| + s.postedReads == 1)
    && (s.readOps != [] ==>
          s.readOps[0] == ReadOp(s.input.generation, s.input.w, s.input.Writable()))
  }

  /** A write starts at the read index; only a shift moves that away from it, to the front. */
  predicate WriteSchedule(s: Conn)
    requires s.output.r <= s.output.w <= |s.output.mem|
  {
    && |s.writeOps| <= 1
    && (s.sending <==> s.writeOps != [] || s.failed)
    && (s.failed ==> s.writeOps == [])
    && (s.writeOps != [] ==>
          var op := s.writeOps[0];
          && op.sent <= op.Len() <= |s.output.Live()|
          && op.generation <= s.output.generation
          && (op.at == s.output.r || s.output.r == 0))
  }

  ghost predicate Schedule(s: Conn) { BuffersValid(s) && ReadSchedule(s) && WriteSchedule(s) }

  predicate IsSuffix(part: Message, all: Message) {
    |part| <= |all| && all[|all| - |part|..] == part
  }

  /** Everything before the write index is a suffix of what was received: in order, without gap or
      repetition. */
  predicate InputInOrder(s: Conn) {
    s.input.w <= |s.input.mem| && IsSuffix(s.input.mem[..s.input.w], s.received)
  }

  /** While connected: a write is under way or nothing is left to send, exactly if something was
      sent since CONNECTED was entered or nothing was stranded then. */
  predicate IdleLaw(s: Conn)
    requires s.output.r <= s.output.w <= |s.output.mem|
  {
    s.link == Connected ==>
      (s.sending || s.output.Live() == [] <==> s.sentSinceUp || !s.strandedAtUp)
  }

  function Ends(s: Conn): nat {
    s.endings.closes + (if s.readFailed then 1 else 0) + (if s.failed then 1 else 0)
  }

  /** Every end is reported or finds no callback, and cancels the socket's operations, save at most
      one end of file. */
  predicate CloseLaw(s: Conn) {
    && s.endings.notices + s.endings.silent == Ends(s)
    && s.endings.cancels + s.endings.quiet == Ends(s)
    && s.endings.quiet <= (if s.readFailed then 1 else 0)
    && s.endings.quiet <= s.endings.notices
  }

  function Taken(s: Conn): nat { if s.writeOps == [] then 0 else s.writeOps[0].sent }

  /** What the outstanding write was launched for is still the front of the live bytes, and what it
      has taken of that comes last; the taken parts of all snapshots, followed by the live bytes
      behind them, are what was submitted. */
  predicate SnapshotLaw(s: Conn)
    requires s.output.r <= s.output.w <= |s.output.mem|
  {
    && |s.meant| == |s.wire|
    && (s.writeOps != [] ==>
          var op, live := s.writeOps[0], s.output.Live();
          && op.sent <= op.Len() <= |live| && op.snapshot == live[..op.Len()]
          && IsSuffix(op.snapshot[..op.sent], s.meant))
    && (if s.failed then s.meant <= s.submitted
        else Taken(s) <= |s.output.Live()| && s.meant + s.output.Live()[Taken(s)..] == s.submitted)
  }

  ghost predicate Inv(s: Conn) {
    Schedule(s) && InputInOrder(s) && IdleLaw(s) && CloseLaw(s) && SnapshotLaw(s)
  }

  lemma InitInv()
    ensures Inv(Init())
  {
  }

  // ---------- What each event keeps ----------

  lemma ArrivedAppends(b: Buf, op: ReadOp, data: Message, spare: nat)
    requires b.Valid() && op == ReadOp(b.generation, b.w, b.Writable()) && |data| <= op.room
    ensures var t := Arrived(b, op, data, spare);
            && t.Valid() && t.Live() == b.Live() + data && t.r + t.w < |t.mem|
            && |t.mem| == (if |data| == b.Writable() then 2 * |b.mem| else |b.mem|)
            && t.r == (if b.r + b.w + |data| >= |t.mem| then 0 else b.r)
            && IsSuffix(t.mem[..t.w], b.mem[..b.w] + data)
  {
    var u := Receive(b, data, spare);
    assert Arrived(b, op, data, spare) == Adjust(u);
    ReceiveConcatenates(b, data, spare);
    ReceivedBytes(b, data, spare);
    AdjustCompacts(u);
    AdjustedBytes(u);
    hide Receive, Adjust, Arrived;
  }

  lemma ReceivedBytes(b: Buf, data: Message, spare: nat)
    requires b.Valid() && |data| <= b.Writable()
    ensures var t := Receive(b, data, spare); t.w <= |t.mem| && t.mem[..t.w] == b.mem[..b.w] + data
  {
  }

  lemma AdjustedBytes(b: Buf)
    requires b.Valid()
    ensures var t := Adjust(b); IsSuffix(t.mem[..t.w], b.mem[..b.w])
  {
  }

  lemma SuffixGrows(all: Message, front: Message, data: Message, part: Message)
    requires IsSuffix(front, all) && IsSuffix(part, front + data)
    ensures IsSuffix(part, all + data)
  {
  }

  lemma CalledKeeps(b: Buf, skip: Skip)
    requires b.Valid()
    ensures var t := Called(b, skip);
            && t.Valid() && t.mem == b.mem && (t.w == b.w || t.w == 0)
  {
  }

  /** A reception adds what arrived behind the unread input, doubles a buffer it has filled, moves
      the unread bytes to the front if the indices reach the size, and only then lets the callback
      retrieve, which takes away just that if and only if the 32-bit read index does not wrap. */
  lemma ReceptionDelivers(s: Conn, data: Message, skip: Skip, spare: nat)
    requires Inv(s) && Enabled(s, Received(data, skip, spare))
    ensures var t := ReceivedStep(s, data, skip, spare);
            var seen := Arrived(s.input, s.readOps[0], data, spare);
            && seen.Valid() && seen.Live() == s.input.Live() + data && seen.r + seen.w < |seen.mem|
            && |seen.mem| == (if |data| == s.input.Writable() then 2 * |s.input.mem| else |s.input.mem|)
            && seen.r == (if s.input.r + s.input.w + |data| >= |seen.mem| then 0 else s.input.r)
            && t.input.Valid()
            && t.input == (if skip.NoCallback? then seen else RetrieveRead(seen, skip.count))
            && (skip.Skipped? ==>
                  (t.input.Live() == Drop(s.input.Live() + data, skip.count) <==>
                   seen.r + skip.count < TWO_32))
  {
    hide Inv, Arrived, Enabled, RetrieveRead, Drop;
    ReceptionStep(s, data, skip, spare);
    var b := Arrived(s.input, s.readOps[0], data, spare);
    ArrivedAppends(s.input, s.readOps[0], data, spare);
    CalledKeeps(b, skip);
    if skip.Skipped? {
      RetrieveReadExactly(b, skip.count);
    }
  }

  lemma ReceivedKeepsSchedule(s: Conn, data: Message, skip: Skip, spare: nat)
    requires Schedule(s) && Enabled(s, Received(data, skip, spare))
    ensures Schedule(ReceivedStep(s, data, skip, spare))
  {
    hide Arrived, Called, WriteSchedule, IsSuffix;
    ArrivedAppends(s.input, s.readOps[0], data, spare);
    CalledKeeps(Arrived(s.input, s.readOps[0], data, spare), skip);
    assert s.receiving && !s.readFailed && s.postedReads == 0 && s.readOps[1..] == [];
    SameWriting(s, ReceivedStep(s, data, skip, spare));
    hide Enabled;
  }

  lemma SameWriting(s: Conn, t: Conn)
    requires s.output.r <= s.output.w <= |s.output.mem| && WriteSchedule(s)
    requires t.output == s.output && t.writeOps == s.writeOps && t.sending == s.sending && t.failed == s.failed
    ensures WriteSchedule(t)
  {
  }

  lemma ReceivedKeepsOrder(s: Conn, data: Message, skip: Skip, spare: nat)
    requires Schedule(s) && InputInOrder(s) && Enabled(s, Received(data, skip, spare))
    ensures InputInOrder(ReceivedStep(s, data, skip, spare))
  {
    hide Arrived, Called, WriteSchedule, Enabled, IsSuffix, Schedule;
    ReadInPlace(s, data, skip, spare);
    var b := Arrived(s.input, s.readOps[0], data, spare);
    ArrivedAppends(s.input, s.readOps[0], data, spare);
    CalledKeeps(b, skip);
    SuffixGrows(s.received, s.input.mem[..s.input.w], data, b.mem[..b.w]);
    NothingIsSuffix(s.received + data);
  }

  lemma ReadInPlace(s: Conn, data: Message, skip: Skip, spare: nat)
    requires Schedule(s) && Enabled(s, Received(data, skip, spare))
    ensures s.input.Valid() && s.readOps != [] && |data| <= s.readOps[0].room
    ensures s.readOps[0] == ReadOp(s.input.generation, s.input.w, s.input.Writable())
  {
  }

  lemma NothingIsSuffix(all: Message)
    ensures IsSuffix([], all)
  {
  }

  lemma SubmitKeepsSchedule(s: Conn, data: Message, spare: nat)
    requires Schedule(s) && Enabled(s, Send(data, spare))
    ensures Schedule(Submit(s, data, spare))
  {
  }

  lemma SubmitKeepsFlags(s: Conn, data: Message, spare: nat)
    requires s.output.Valid()
    ensures var t := Submit(s, data, spare);
            && t.sending == s.sending && t.link == s.link && t.failed == s.failed
            && t.strandedAtUp == s.strandedAtUp && t.writeOps == s.writeOps
            && t.sentSinceUp == (s.sentSinceUp || s.link == Connected)
            && t.output.Valid() && t.output.Live() == s.output.Live() + data
  {
  }

  lemma LaunchKeepsSchedule(s: Conn)
    requires Schedule(s) && !s.sending
    ensures Schedule(Launch(s))
  {
    assert s.writeOps == [] && Launch(s).writeOps == [Whole(s.output)];
  }

  lemma RetrievedLive(b: Buf, count: nat)
    requires b.Valid() && |b.mem| < TWO_32 && count <= |b.Live()|
    ensures var t := RetrieveRead(b, count);
            t.Valid() && t.Live() == b.Live()[count..] && t.mem == b.mem && t.generation == b.generation
  {
  }

  lemma CompletedKeepsSchedule(s: Conn)
    requires Schedule(s) && Enabled(s, Sent)
    ensures Schedule(Completed(s))
  {
  }

  lemma StepKeepsSchedule(s: Conn, e: Event)
    requires Schedule(s)
    ensures Schedule(Step(s, e))
  {
    Frames(s, e);
    Handlers(s, e);
    hide Step;
    if Enabled(s, e) {
      match e
      case Connect =>
      case SetCloseCallback(_) =>
      case StartReceive =>
      case RunReceive =>
      case Received(data, skip, spare) =>
        ReceivedKeepsSchedule(s, data, skip, spare);
        hide ReceivedStep, Schedule;
      case Send(data, spare) =>
        SubmitKeepsSchedule(s, data, spare);
        SubmitKeepsFlags(s, data, spare);
        hide Submit, Schedule, Launch, Append;
        if !Submit(s, data, spare).sending { LaunchKeepsSchedule(Submit(s, data, spare)); }
      case Transmit(_) => hide Readable;
      case Sent =>
        CompletedKeepsSchedule(s);
        LaunchKeepsSchedule(Completed(s));
        hide Schedule, Launch, RetrieveRead;
      case ReceiveFails(_) =>
      case SendFails =>
      case Close =>
    }
  }

  /** The four handlers with a function of their own. */
  lemma Handlers(s: Conn, e: Event)
    requires BuffersValid(s)
    ensures Enabled(s, e) && e.Received? ==> Step(s, e) == ReceivedStep(s, e.data, e.skip, e.spare)
    ensures Enabled(s, e) && e.Send? ==> Step(s, e) == SendStep(s, e.data, e.spare)
    ensures Enabled(s, e) && e.Transmit? ==> Step(s, e) == TransmitStep(s, e.bytes)
    ensures Enabled(s, e) && e.Sent? ==> Step(s, e) == SentStep(s)
  {
    hide ReceivedStep, SendStep, TransmitStep, SentStep, Readable, GrowthAllowed;
  }

  lemma StepKeepsOrder(s: Conn, e: Event)
    requires Schedule(s) && InputInOrder(s)
    ensures InputInOrder(Step(s, e))
  {
    if Enabled(s, e) && e.Received? {
      ReceivedKeepsOrder(s, e.data, e.skip, e.spare);
    } else {
      OtherStepsKeepInput(s, e);
      hide Step, InputInOrder;
      SameOrder(s, Step(s, e));
    }
  }

  lemma SameOrder(s: Conn, t: Conn)
    requires InputInOrder(s) && t.input == s.input && t.received == s.received
    ensures InputInOrder(t)
  {
  }

  lemma StepKeepsIdle(s: Conn, e: Event)
    requires Schedule(s) && IdleLaw(s)
    ensures Schedule(Step(s, e)) && IdleLaw(Step(s, e))
  {
    StepKeepsSchedule(s, e);
    if Enabled(s, e) {
      match e
      case Send(data, spare) =>
        SubmitKeepsFlags(s, data, spare);
        hide Submit, Fits, Shifts, GrowthAllowed;
      case Sent =>
        RetrievedLive(s.output, s.writeOps[0].Len());
        hide RetrieveRead;
      case Connect =>
      case SetCloseCallback(_) =>
      case StartReceive =>
      case RunReceive =>
      case Received(_, _, _) => hide Arrived, Called;
      case Transmit(_) =>
      case ReceiveFails(_) =>
      case SendFails =>
      case Close =>
    }
  }

  lemma StepKeepsCloses(s: Conn, e: Event)
    requires Schedule(s) && CloseLaw(s)
    ensures CloseLaw(Step(s, e))
  {
    if Enabled(s, e) && (e.ReceiveFails? || e.SendFails? || e.Close?) {
      hide GrowthAllowed, Readable;
    } else {
      OtherStepsDoNotEnd(s, e);
      hide Step, Schedule;
    }
  }

  lemma OtherStepsDoNotEnd(s: Conn, e: Event)
    requires !(Enabled(s, e) && (e.ReceiveFails? || e.SendFails? || e.Close?))
    ensures SameEnds(s, Step(s, e))
  {
    Frames(s, e);
    hide Step, Append, RetrieveRead, Readable, GrowthAllowed;
  }

  predicate SameInput(s: Conn, t: Conn) { t.input == s.input && t.received == s.received }

  predicate SameEnds(s: Conn, t: Conn) {
    t.endings == s.endings && t.failed == s.failed && t.readFailed == s.readFailed
  }

  lemma StepKeepsSnapshot(s: Conn, e: Event)
    requires Schedule(s) && SnapshotLaw(s)
    ensures Schedule(Step(s, e)) && SnapshotLaw(Step(s, e))
  {
    StepKeepsSchedule(s, e);
    Frames(s, e);
    Handlers(s, e);
    hide Step;
    if !Enabled(s, e) || !(e.Send? || e.Transmit? || e.Sent? || e.SendFails?) {
      hide Enabled, SnapshotLaw;
      SnapshotDependsOn(s, Step(s, e));
    } else {
      hide SendStep, SentStep, TransmitStep, SnapshotLaw, Schedule, Append, RetrieveRead;
      match e
      case Send(data, spare) => SendKeepsSnapshot(s, data, spare);
      case Transmit(bytes) => TransmitKeepsSnapshot(s, bytes);
      case Sent => SentKeepsSnapshot(s);
      case SendFails => SendFailsKeepsSnapshot(s);
    }
  }

  lemma SendKeepsSnapshot(s: Conn, data: Message, spare: nat)
    requires Schedule(s) && SnapshotLaw(s) && Enabled(s, Send(data, spare))
    ensures s.output.Valid() && Schedule(SendStep(s, data, spare)) ==> SnapshotLaw(SendStep(s, data, spare))
  {
    SubmitKeepsSchedule(s, data, spare);
    SubmitKeepsSnapshot(s, data, spare);
    SubmitKeepsFlags(s, data, spare);
    hide Submit, Schedule, SnapshotLaw, Launch;
    if !Submit(s, data, spare).sending { LaunchKeepsSnapshot(Submit(s, data, spare)); }
  }

  lemma SentKeepsSnapshot(s: Conn)
    requires Schedule(s) && SnapshotLaw(s) && Enabled(s, Sent)
    ensures Schedule(SentStep(s)) ==> SnapshotLaw(SentStep(s))
  {
    CompletedKeepsSchedule(s);
    CompletedKeepsSnapshot(s);
    hide RetrieveRead;
    LaunchKeepsSnapshot(Completed(s));
    hide Schedule, SnapshotLaw, Launch;
  }

  lemma SendFailsKeepsSnapshot(s: Conn)
    requires Schedule(s) && SnapshotLaw(s) && Enabled(s, SendFails)
    ensures Schedule(Step(s, SendFails)) ==> SnapshotLaw(Step(s, SendFails))
  {
    OneUnfailed(s);
    Frames(s, SendFails);
    hide Step, Schedule, Enabled;
    assert s.meant <= s.meant + s.output.Live()[Taken(s)..];
  }

  lemma SnapshotDependsOn(s: Conn, t: Conn)
    requires s.output.r <= s.output.w <= |s.output.mem| && SnapshotLaw(s)
    requires t.output == s.output && t.writeOps == s.writeOps && t.failed == s.failed
    requires t.meant == s.meant && t.wire == s.wire && t.submitted == s.submitted
    ensures SnapshotLaw(t)
  {
  }

  lemma SubmitKeepsSnapshot(s: Conn, data: Message, spare: nat)
    requires Schedule(s) && SnapshotLaw(s)
    ensures SnapshotLaw(Submit(s, data, spare))
  {
    var live, t := s.output.Live(), Submit(s, data, spare);
    AppendConcatenates(s.output, data, spare);
    assert t.output.Live() == live + data;
    hide Append;
    if !s.failed {
      TailOfSum(live, data, Taken(s));
      Reassociate(s.meant, live[Taken(s)..], data);
    }
    if s.writeOps != [] {
      HeadOfSum(live, data, s.writeOps[0].Len());
    }
  }

  lemma LaunchKeepsSnapshot(s: Conn)
    requires Schedule(s) && SnapshotLaw(s) && !s.sending
    ensures SnapshotLaw(Launch(s))
  {
  }

  lemma TransmitKeepsSnapshot(s: Conn, bytes: Message)
    requires Schedule(s) && SnapshotLaw(s) && Enabled(s, Transmit(bytes))
    ensures SnapshotLaw(TransmitStep(s, bytes))
  {
    hide Schedule, Readable, Unsent, IsSuffix;
    OneUnfailed(s);
    TransmitSnapshot(s, |bytes|);
  }

  lemma OneUnfailed(s: Conn)
    requires Schedule(s) && s.writeOps != []
    ensures !s.failed && |s.writeOps| == 1 && s.output.r <= s.output.w <= |s.output.mem|
  {
  }

  lemma TransmitSnapshot(s: Conn, n: nat)
    requires !s.failed && s.output.r <= s.output.w <= |s.output.mem| && SnapshotLaw(s)
    requires s.writeOps != [] && s.writeOps[0].sent + n <= s.writeOps[0].Len()
    ensures var op, live := s.writeOps[0], s.output.Live();
            var next, meant := op.sent + n, s.meant + op.snapshot[op.sent..op.sent + n];
            && |meant| == |s.wire| + n && op.snapshot == live[..op.Len()] && next <= |live|
            && IsSuffix(op.snapshot[..next], meant) && meant + live[next..] == s.submitted
  {
  }

  lemma CompletedKeepsSnapshot(s: Conn)
    requires Schedule(s) && SnapshotLaw(s) && Enabled(s, Sent)
    ensures SnapshotLaw(Completed(s))
  {
  }

  lemma StepKeepsInv(s: Conn, e: Event)
    requires Inv(s)
    ensures Inv(Step(s, e))
  {
    hide Schedule, InputInOrder, IdleLaw, CloseLaw, SnapshotLaw, Step;
    StepKeepsSchedule(s, e);
    StepKeepsOrder(s, e);
    StepKeepsIdle(s, e);
    StepKeepsCloses(s, e);
    StepKeepsSnapshot(s, e);
  }

  lemma {:induction false} RunKeepsInv(s: Conn, events: seq<Event>)
    requires Inv(s)
    ensures Inv(After(s, events))
    decreases |events|
  {
    hide Inv, Step;
    if events != [] {
      StepKeepsInv(s, events[0]);
      RunKeepsInv(Step(s, events[0]), events[1..]);
    }
  }

  lemma ReachedInv(events: seq<Event>)
    ensures Inv(Reached(events))
  {
    InitInv();
    hide After;
    RunKeepsInv(Init(), events);
  }

  // ---------- Scheduling, in every run ----------

  /** Over all interleavings: at most one write, at most one posted or outstanding read, exactly one
      from startReceive until a read fails, and sending_ is set exactly while a write is outstanding
      or after one has failed. */
  lemma Scheduling(events: seq<Event>)
    ensures var s := Reached(events);
            && |s.writeOps| <= 1 && |s.readOps| + s.postedReads <= 1
            && (s.receiving && !s.readFailed <==> |s.readOps| + s.postedReads == 1)
            && (s.sending <==> s.writeOps != [] || s.failed)
  {
    ReachedInv(events);
    hide Reached;
  }

  /** An outstanding read always points at the free part of the current input storage and has
      room there; the input buffer is not shifted or resized under it. */
  lemma ReadTargetIsStable(events: seq<Event>)
    ensures var s := Reached(events);
            s.readOps != [] ==>
              && s.input.w <= |s.input.mem|
              && s.readOps[0] == ReadOp(s.input.generation, s.input.w, s.input.Writable())
              && s.readOps[0].room > 0
  {
    ReachedInv(events);
    hide Reached;
  }

  /** The unread input is a suffix of what was received, even after the read index has wrapped. */
  lemma InputArrivesInOrder(events: seq<Event>)
    ensures var s := Reached(events); s.input.Valid() && IsSuffix(s.input.Live(), s.received)
  {
    var s := Reached(events);
    ReachedInv(events);
    hide Reached;
    LiveIsSuffix(s.input);
    SuffixGrows(s.received, s.input.mem[..s.input.w], [], s.input.Live());
    assert s.received + [] == s.received;
  }

  lemma LiveIsSuffix(b: Buf)
    requires b.Valid()
    ensures IsSuffix(b.Live(), b.mem[..b.w] + [])
  {
  }

  /** A connection that is not connected starts no write, whatever happens to it: the outstanding
      one, if there is one, goes on, and no other one appears. */
  lemma WritesStartConnected(s: Conn, e: Event)
    requires Inv(s) && s.link != Connected
    ensures forall op :: op in Step(s, e).writeOps ==>
              s.writeOps != [] && op == s.writeOps[0].(sent := op.sent)
  {
  }

  /** After a read has failed no read is ever posted or started again, not even once reconnected:
      `receiving_` is never reset. */
  lemma {:induction false} NoReadAfterFailure(s: Conn, events: seq<Event>)
    requires Inv(s) && s.readFailed
    ensures var t := After(s, events);
            t.readOps == [] && t.postedReads == 0 && t.received == s.received && t.input == s.input
    decreases |events|
  {
    assert s.readOps == [] && s.postedReads == 0 && s.receiving;
    hide Inv, Step;
    if events != [] {
      StepKeepsInv(s, events[0]);
      NoReadStep(s, events[0]);
      NoReadAfterFailure(Step(s, events[0]), events[1..]);
    }
  }

  lemma NoReadStep(s: Conn, e: Event)
    requires s.receiving && s.readOps == [] && s.postedReads == 0 && s.readFailed
    ensures var t := Step(s, e); t.readFailed && t.received == s.received && t.input == s.input
  {
    Frames(s, e);
    hide Step, Append, RetrieveRead, Readable, GrowthAllowed;
  }

  /** After a failed write no write is ever started again, and nothing more reaches the peer. */
  lemma {:induction false} NoWriteAfterFailure(s: Conn, events: seq<Event>)
    requires Inv(s) && s.failed
    ensures var t := After(s, events); t.failed && t.writeOps == [] && t.wire == s.wire
    decreases |events|
  {
    assert s.writeOps == [] && s.sending;
    hide Inv, Step;
    if events != [] {
      StepKeepsInv(s, events[0]);
      NoWriteStep(s, events[0]);
      NoWriteAfterFailure(Step(s, events[0]), events[1..]);
    }
  }

  lemma NoWriteStep(s: Conn, e: Event)
    requires s.failed && s.writeOps == [] && s.sending
    ensures Step(s, e).failed && Step(s, e).wire == s.wire
  {
    Frames(s, e);
    hide Step, Append, RetrieveRead, Readable, GrowthAllowed;
  }

  /** A reception that neither fills nor compacts the input buffer. */
  lemma SmallReception(s: Conn, data: Message, count: nat)
    requires Inv(s) && s.readOps != [] && count < TWO_32 && 2 * |s.input.mem| < TWO_32
    requires s.input.r + s.input.w + |data| < |s.input.mem|
    ensures s.input.w + |data| <= |s.input.mem|
    ensures var b, t := s.input, Step(s, Received(data, Skipped(count), 0));
            && Inv(t) && t.readOps != [] && t.input == RetrieveRead(Put(b, data), count)
  {
    var b := s.input;
    ReadHasRoom(s, data, count);
    hide Inv, Step, Enabled, RetrieveRead;
    ReceptionStep(s, data, Skipped(count), 0);
    assert Arrived(b, s.readOps[0], data, 0) == Put(b, data);
  }

  lemma ReadHasRoom(s: Conn, data: Message, count: nat)
    requires Inv(s) && s.readOps != [] && count < TWO_32 && 2 * |s.input.mem| < TWO_32
    requires s.input.r + s.input.w + |data| < |s.input.mem|
    ensures Enabled(s, Received(data, Skipped(count), 0))
  {
  }

  /** A callback that retrieves more than there is to read can bring read bytes back: of four
      bytes received it retrieves the first, then 2^32 - 1, and all four are unread again. */
  lemma ReadBytesComeBack(first: Event, second: Event)
    requires first == Received([1, 2, 3], Skipped(1), 0)
    requires second == Received([4], Skipped(TWO_32 - 1), 0)
    ensures var s, t := Reached([StartReceive, RunReceive, first]),
                        Reached([StartReceive, RunReceive, first, second]);
            s.input.Valid() && s.input.Live() == [2, 3] && t.input.Valid() && t.input.Live() == [1, 2, 3, 4]
  {
    var s := Step(Step(Init(), StartReceive), RunReceive);
    var t := Step(s, first);
    hide Step, Inv, After, Init, RetrieveRead, Put;
    ThreeSteps(Init(), StartReceive, RunReceive, first);
    FourSteps(Init(), StartReceive, RunReceive, first, second);
    InitInv();
    StepKeepsInv(Init(), StartReceive);
    StepKeepsInv(Step(Init(), StartReceive), RunReceive);
    FirstReadArmed();
    WrappedIndex();
    SmallReception(s, [1, 2, 3], 1);
    SmallReception(t, [4], TWO_32 - 1);
  }

  lemma FirstReadArmed()
    ensures var s := Step(Step(Init(), StartReceive), RunReceive);
            s.input == NewBuf(BUF_SIZE) && s.readOps != []
  {
    assert Step(Init(), StartReceive) == Init().(receiving := true, postedReads := 1);
  }

  lemma WrappedIndex()
    ensures var b := RetrieveRead(Put(NewBuf(BUF_SIZE), [1, 2, 3]), 1);
            && b.Valid() && b.r == 1 && b.w == 3 && |b.mem| == BUF_SIZE && b.Live() == [2, 3]
            && RetrieveRead(Put(b, [4]), TWO_32 - 1).Valid()
            && RetrieveRead(Put(b, [4]), TWO_32 - 1).Live() == [1, 2, 3, 4]
  {
    var b0 := Put(NewBuf(BUF_SIZE), [1, 2, 3]);
    assert b0.mem[..3] == [1, 2, 3];
    RetrievedIndex(b0, 1);
    var b1 := Put(b0.(r := 1), [4]);
    RetrievedIndex(b1, TWO_32 - 1);
  }

  // ---------- The end of a connection, in every run ----------

  /** However a connection ends, and however often: the callback is called at most twice beyond
      the calls of closeInService, and all ends cancel the socket's operations but one end of file
      that was left to the callback. */
  lemma EndsAreAccounted(events: seq<Event>)
    ensures var s := Reached(events);
            && s.endings.notices + s.endings.silent == Ends(s) <= s.endings.closes + 2
            && Ends(s) - 1 <= s.endings.cancels <= Ends(s)
            && (s.endings.cancels < Ends(s) ==> s.readFailed && s.endings.notices > 0)
  {
    ReachedInv(events);
    hide Reached;
  }

  /** While a callback stays set, every end is reported to it. */
  lemma {:induction false} EveryEndIsReported(s: Conn, events: seq<Event>)
    requires Inv(s) && s.callback && SetCloseCallback(false) !in events
    ensures var t := After(s, events); t.endings.notices - s.endings.notices == Ends(t) - Ends(s)
    decreases |events|
  {
    assert s.endings.notices + s.endings.silent == Ends(s);
    hide Inv, Step;
    if events != [] {
      StepKeepsInv(s, events[0]);
      assert events[0] in events;
      CallbackStep(s, events[0]);
      EveryEndIsReported(Step(s, events[0]), events[1..]);
    }
  }

  lemma CallbackStep(s: Conn, e: Event)
    requires Inv(s) && s.callback && e != SetCloseCallback(false)
    ensures var t := Step(s, e); t.callback && t.endings.notices - s.endings.notices == Ends(t) - Ends(s)
  {
    Frames(s, e);
    NotFailedYet(s);
    hide Inv, Step, Append, RetrieveRead, Readable, GrowthAllowed;
  }

  lemma NotFailedYet(s: Conn)
    requires Inv(s)
    ensures (s.readOps != [] ==> !s.readFailed) && (s.writeOps != [] ==> !s.failed)
  {
    hide InputInOrder, IdleLaw, CloseLaw, SnapshotLaw;
  }

  /** The failures that socket_.cancel() brings about, in whatever order, and an end of file that
      came in before. */
  predicate Failures(events: seq<Event>) {
    forall e :: e in events ==> e.ReceiveFails? || e.SendFails?
  }

  function Outstanding(s: Conn): nat { |s.readOps| + |s.writeOps| }

  /** One forceClose calls the callback once for itself and once more for each operation then
      outstanding, after all of them have failed. */
  lemma CloseCallsPerOperation(s: Conn, failures: seq<Event>)
    requires Inv(s) && s.callback && Failures(failures)
    requires Outstanding(After(Step(s, Close), failures)) == 0
    ensures After(Step(s, Close), failures).endings.notices == s.endings.notices + 1 + Outstanding(s)
  {
    StepKeepsInv(s, Close);
    CloseStep(s);
    hide Inv, Step, Outstanding;
    FailuresAreReported(Step(s, Close), failures);
  }

  lemma CloseStep(s: Conn)
    requires Inv(s) && s.callback
    ensures var t := Step(s, Close);
            && t.callback && t.endings.notices == s.endings.notices + 1
            && t.link == Disconnected && t.readOps == s.readOps && t.writeOps == s.writeOps
            && t.postedReads == s.postedReads
  {
    hide ReadSchedule, WriteSchedule, InputInOrder, IdleLaw, CloseLaw, SnapshotLaw;
  }

  lemma {:induction false} FailuresAreReported(s: Conn, failures: seq<Event>)
    requires Inv(s) && s.callback && Failures(failures)
    ensures var t := After(s, failures);
            t.endings.notices + Outstanding(t) == s.endings.notices + Outstanding(s)
    decreases |failures|
  {
    hide Inv, Step, Outstanding;
    if failures != [] {
      assert failures[0] in failures && forall e :: e in failures[1..] ==> e in failures;
      StepKeepsInv(s, failures[0]);
      FailureIsReported(s, failures[0]);
      FailuresAreReported(Step(s, failures[0]), failures[1..]);
    }
  }

  lemma FailureIsReported(s: Conn, e: Event)
    requires Inv(s) && s.callback && (e.ReceiveFails? || e.SendFails?)
    ensures var t := Step(s, e);
            t.callback && t.endings.notices + Outstanding(t) == s.endings.notices + Outstanding(s)
  {
    hide InputInOrder, IdleLaw, CloseLaw, SnapshotLaw, BuffersValid, ReadSchedule, WriteSchedule;
  }

  /** Whatever may happen after a forceClose while the owner leaves the connection alone. */
  predicate LeftAlone(events: seq<Event>) {
    forall e :: e in events ==>
      !e.Connect? && !e.SetCloseCallback? && !e.StartReceive? && !e.Close?
  }

  /** What may still fail, a read posted but not begun included. */
  function Unfailed(s: Conn): nat { Outstanding(s) + s.postedReads }

  /** A forceClose calls the callback exactly once, whatever happens afterwards, if and only if no
      read is posted or outstanding and no write is. */
  lemma ClosedOnceExactly(s: Conn)
    requires Inv(s) && s.callback
    ensures (forall events :: LeftAlone(events) ==>
               After(Step(s, Close), events).endings.notices == s.endings.notices + 1)
            <==> s.readOps == [] && s.postedReads == 0 && s.writeOps == []
  {
    var t := Step(s, Close);
    StepKeepsInv(s, Close);
    CloseStep(s);
    hide Inv, Step, Outstanding, LeftAlone;
    if Unfailed(s) == 0 {
      forall events | LeftAlone(events)
        ensures After(t, events).endings.notices == s.endings.notices + 1
      {
        CallsAreBounded(t, events);
      }
    } else {
      SecondCall(t);
      var events := SecondCallEvents(t);
      assert After(t, events).endings.notices > s.endings.notices + 1;
    }
  }

  /** In whatever order things then happen, each of these adds at most one call. */
  lemma {:induction false} CallsAreBounded(s: Conn, events: seq<Event>)
    requires Inv(s) && s.callback && s.link != Connected && LeftAlone(events)
    ensures var t := After(s, events);
            && s.endings.notices <= t.endings.notices
            && t.endings.notices + Unfailed(t) <= s.endings.notices + Unfailed(s)
    decreases |events|
  {
    hide Inv, Step, Unfailed;
    if events != [] {
      assert events[0] in events && forall e :: e in events[1..] ==> e in events;
      StepKeepsInv(s, events[0]);
      CallIsBounded(s, events[0]);
      CallsAreBounded(Step(s, events[0]), events[1..]);
    }
  }

  lemma CallIsBounded(s: Conn, e: Event)
    requires Inv(s) && s.callback && s.link != Connected
    requires !e.Connect? && !e.SetCloseCallback? && !e.StartReceive? && !e.Close?
    ensures var t := Step(s, e);
            && t.callback && t.link != Connected && s.endings.notices <= t.endings.notices
            && t.endings.notices + Unfailed(t) <= s.endings.notices + Unfailed(s)
  {
    if e.ReceiveFails? || e.SendFails? {
      FailureIsReported(s, e);
      hide Inv;
    } else {
      OtherStepsDoNotEnd(s, e);
      OtherStepsStartNothing(s, e);
      hide Inv, Step;
    }
  }

  /** A connection that is not connected starts no operation of its own accord. */
  lemma OtherStepsStartNothing(s: Conn, e: Event)
    requires Inv(s) && s.link != Connected
    requires !e.Connect? && !e.SetCloseCallback? && !e.StartReceive? && !e.Close?
    requires !e.ReceiveFails? && !e.SendFails?
    ensures var t := Step(s, e);
            t.callback == s.callback && t.link == s.link && Unfailed(t) <= Unfailed(s)
  {
    Frames(s, e);
    InvParts(s);
    hide Inv, Arrived, Called, Append, RetrieveRead, Readable, GrowthAllowed;
    if Enabled(s, e) {
      match e
      case RunReceive => hide ReceivedStep, SendStep, SentStep, TransmitStep;
      case Received(_, _, _) => hide SendStep, SentStep, TransmitStep;
      case Send(_, _) => hide ReceivedStep, SentStep, TransmitStep;
      case Transmit(_) => hide ReceivedStep, SendStep, SentStep;
      case Sent => hide ReceivedStep, SendStep, TransmitStep;
    }
  }

  function SecondCallEvents(s: Conn): seq<Event> {
    if s.writeOps != [] then [SendFails]
    else if s.readOps != [] then [ReceiveFails(false)]
    else [RunReceive, ReceiveFails(false)]
  }

  lemma SecondCall(s: Conn)
    requires Inv(s) && s.callback && Unfailed(s) > 0
    ensures LeftAlone(SecondCallEvents(s))
    ensures After(s, SecondCallEvents(s)).endings.notices == s.endings.notices + 1
  {
    InvParts(s);
    hide Inv, BuffersValid, After, Step;
    if s.writeOps != [] || s.readOps != [] {
      var e := SecondCallEvents(s)[0];
      OneStep(s, e);
      FailureCalls(s, e);
    } else {
      var t := Step(s, RunReceive);
      TwoSteps(s, RunReceive, ReceiveFails(false));
      StepKeepsInv(s, RunReceive);
      PostedReadRuns(s);
      InvParts(t);
      FailureCalls(t, ReceiveFails(false));
    }
  }

  lemma InvParts(s: Conn)
    requires Inv(s)
    ensures BuffersValid(s)
  {
  }

  lemma FailureCalls(s: Conn, e: Event)
    requires BuffersValid(s) && s.callback
    requires (e.ReceiveFails? && s.readOps != []) || (e.SendFails? && s.writeOps != [])
    ensures Step(s, e).endings.notices == s.endings.notices + 1
  {
  }

  lemma PostedReadRuns(s: Conn)
    requires BuffersValid(s) && s.postedReads > 0
    ensures var t := Step(s, RunReceive);
            t.readOps != [] && t.callback == s.callback && t.endings == s.endings
  {
  }

  /** So a forceClose while a read is outstanding, which it is whenever the connection receives,
      calls the callback twice. */
  lemma ForceCloseCallsTwice()
    ensures Reached([SetCloseCallback(true), StartReceive, RunReceive] + [Close, ReceiveFails(false)])
              .endings.notices == 2
  {
    var start := [SetCloseCallback(true), StartReceive, RunReceive];
    var s := Reached(start);
    Receiving();
    ReachedInv(start);
    CloseStep(s);
    StepKeepsInv(s, Close);
    AfterConcat(Init(), start, [Close, ReceiveFails(false)]);
    assert [Close, ReceiveFails(false)][1..] == [ReceiveFails(false)];
    hide Step, Inv, Reached;
    assert After(s, [Close, ReceiveFails(false)]) == After(Step(s, Close), [ReceiveFails(false)]);
    SecondCall(Step(s, Close));
  }

  lemma Receiving()
    ensures var s := Reached([SetCloseCallback(true), StartReceive, RunReceive]);
            && s.callback && s.endings.notices == 0
            && s.readOps == [ReadOp(0, 0, BUF_SIZE)] && s.postedReads == 0 && s.writeOps == []
  {
    var s1 := Step(Init(), SetCloseCallback(true));
    assert s1 == Init().(callback := true);
    var s2 := Step(s1, StartReceive);
    assert s2 == s1.(receiving := true, postedReads := 1);
    var s3 := Step(s2, RunReceive);
    ThreeSteps(Init(), SetCloseCallback(true), StartReceive, RunReceive);
  }

  // ---------- Idle connections, in every run ----------

  /** The output of a connected, idle connection is empty exactly if something was sent since
      CONNECTED was entered or nothing was stranded then. */
  lemma IdleExactly(events: seq<Event>)
    ensures var s := Reached(events);
            s.link == Connected && !s.sending ==>
              (s.output.r == s.output.w <==> s.sentSinceUp || !s.strandedAtUp)
  {
    ReachedInv(events);
    hide Reached;
  }

  /** Bytes left behind by an idle connection stay there through every event but a send, coming
      up included. */
  lemma {:induction false} OnlyASendRestarts(s: Conn, events: seq<Event>)
    requires Inv(s) && !s.sending && forall e :: e in events ==> !e.Send?
    ensures var t := After(s, events);
            !t.sending && t.output == s.output && t.wire == s.wire && t.submitted == s.submitted
    decreases |events|
  {
    assert s.writeOps == [];
    hide Inv, Step;
    if events != [] {
      StepKeepsInv(s, events[0]);
      assert events[0] in events;
      IdleStep(s, events[0]);
      OnlyASendRestarts(Step(s, events[0]), events[1..]);
    }
  }

  lemma IdleStep(s: Conn, e: Event)
    requires !s.sending && s.writeOps == [] && !e.Send?
    ensures var t := Step(s, e);
            !t.sending && t.output == s.output && t.wire == s.wire && t.submitted == s.submitted
  {
    Frames(s, e);
    hide Step, Append, RetrieveRead, Readable, GrowthAllowed;
  }

  /** So data sent before the connection is up may never be written. */
  lemma EarlySendIsStranded(data: Message, spare: nat, events: seq<Event>)
    requires 0 < |data| && GrowthAllowed(NewBuf(BUF_SIZE), |data|)
    requires forall e :: e in events ==> !e.Send?
    ensures var s := Reached([Send(data, spare), Connect]);
            && s.link == Connected && s.strandedAtUp
            && s.output.Valid() && s.output.Live() == data == s.submitted
    ensures Reached([Send(data, spare), Connect] + events).wire == []
    ensures Reached([Send(data, spare), Connect] + events).output ==
            Reached([Send(data, spare), Connect]).output
  {
    var early := [Send(data, spare), Connect];
    TwoSteps(Init(), Send(data, spare), Connect);
    EarlySend(data, spare);
    ReachedInv(early);
    AfterConcat(Init(), early, events);
    hide Step, After, Inv;
    OnlyASendRestarts(Reached(early), events);
  }

  lemma EarlySend(data: Message, spare: nat)
    requires 0 < |data| && GrowthAllowed(NewBuf(BUF_SIZE), |data|)
    ensures var s := Step(Step(Init(), Send(data, spare)), Connect);
            && s.link == Connected && !s.sending && s.strandedAtUp && s.wire == []
            && s.output.Valid() && s.output.Live() == data == s.submitted
  {
  }

  // ---------- Handlers ----------

  /** The handlers that touch a buffer, as steps. */
  lemma HandlerSteps(s: Conn, e: Event)
    requires Inv(s) && Enabled(s, e)
    ensures Inv(Step(s, e)) && BuffersValid(s)
    ensures e.Send? ==> Step(s, e) == SendStep(s, e.data, e.spare)
    ensures e.Send? && !Fits(s.output, |e.data|) && !Shifts(s.output, |e.data|) ==>
              |s.output.mem| + GrowthFor(|e.data|) < TWO_32
    ensures e.Sent? ==> s.writeOps != [] && s.sending && Step(s, e) == SentStep(s)
  {
    StepKeepsInv(s, e);
    hide ReceivedStep, SendStep, SentStep, Fits, Shifts, GrowthFor;
  }

  lemma ReceptionStep(s: Conn, data: Message, skip: Skip, spare: nat)
    requires Inv(s) && Enabled(s, Received(data, skip, spare))
    ensures BuffersValid(s) && s.readOps != [] && 2 * |s.input.mem| < TWO_32
    ensures s.readOps[0] == ReadOp(s.input.generation, s.input.w, s.input.Writable())
    ensures |data| <= s.readOps[0].room && (skip.Skipped? ==> skip.count < TWO_32)
    ensures Step(s, Received(data, skip, spare)) == ReceivedStep(s, data, skip, spare)
    ensures Inv(ReceivedStep(s, data, skip, spare))
  {
    StepKeepsInv(s, Received(data, skip, spare));
    hide ReceivedStep;
  }

  /** The handlers that end the connection, as steps. */
  lemma EndingSteps(s: Conn, e: Event)
    requires Inv(s) && Enabled(s, e)
    ensures Inv(Step(s, e))
    ensures e.ReceiveFails? ==>
              s.readOps != [] &&
              Step(s, e) == Ended(s.(readOps := s.readOps[1..], readFailed := true), !(e.eof && s.callback))
    ensures e.SendFails? ==>
              s.writeOps != [] &&
              Step(s, e) == Ended(s.(writeOps := s.writeOps[1..], failed := true), true)
    ensures e.Close? ==> Step(s, e) == Ended(Closing(s), true)
  {
    StepKeepsInv(s, e);
    hide Ended, Inv;
  }

  // ---------- Buffer sizes ----------

  /** The limits a run keeps to: a receive brings at most `chunk` bytes and leaves at most `unread`
      for the callback; a send brings at most `message` bytes and finds at most `unsent`. */
  datatype Limits = Limits(chunk: nat, unread: nat, message: nat, unsent: nat) {
    function InputBound(): nat {
      if 4 * chunk + 2 * unread < BUF_SIZE then BUF_SIZE else 4 * chunk + 2 * unread
    }

    function OutputBound(): nat { unsent + 4 * message + BUF_SIZE }
  }

  ghost predicate Modest(s: Conn, events: seq<Event>, k: Limits)
    decreases |events|
  {
    events == [] ||
    (&& (events[0].Received? && Enabled(s, events[0]) ==>
           |events[0].data| <= k.chunk && |s.input.Live()| + |events[0].data| <= k.unread)
     && (events[0].Send? && Enabled(s, events[0]) ==>
           |events[0].data| <= k.message && |s.output.Live()| <= k.unsent)
     && Modest(Step(s, events[0]), events[1..], k))
  }

  ghost predicate WithinLimits(s: Conn, k: Limits) {
    |s.input.mem| <= k.InputBound() && Low(s.input, k.unread) && |s.output.mem| <= k.OutputBound()
  }

  /** With the read where it is launched, handleReceive treats its buffer as BufferModel.Handled. */
  lemma ReceivedIsHandled(s: Conn, data: Message, skip: Skip, spare: nat)
    requires Inv(s) && Enabled(s, Received(data, skip, spare))
    ensures |data| <= s.input.Writable()
    ensures ReceivedStep(s, data, skip, spare).input == Handled(s.input, Reception(data, skip, spare))
    ensures ReceivedStep(s, data, skip, spare).output == s.output
  {
  }

  lemma ModestStep(s: Conn, e: Event, k: Limits)
    requires Inv(s) && WithinLimits(s, k) && Modest(s, [e], k)
    ensures WithinLimits(Step(s, e), k)
  {
    if Enabled(s, e) && e.Received? {
      ReceptionStep(s, e.data, e.skip, e.spare);
      ReceivedIsHandled(s, e.data, e.skip, e.spare);
      hide ReceivedStep, Handled, Inv, Step;
      HandledCapacity(s.input, Reception(e.data, e.skip, e.spare), k.chunk, k.unread);
    } else {
      assert e.Send? && Enabled(s, e) ==> |e.data| <= k.message && |s.output.Live()| <= k.unsent;
      hide Inv, Modest;
      OtherStepsKeepInput(s, e);
      OtherStepsGrow(s, e, k.message, k.unsent);
      hide Step;
    }
  }

  lemma OtherStepsKeepInput(s: Conn, e: Event)
    requires !(e.Received? && Enabled(s, e))
    ensures SameInput(s, Step(s, e))
  {
    Frames(s, e);
    hide Step, Append, RetrieveRead, Readable, GrowthAllowed;
  }

  lemma OtherStepsGrow(s: Conn, e: Event, message: nat, unsent: nat)
    requires s.output.Valid() && |s.output.mem| <= unsent + 4 * message + BUF_SIZE
    requires !(e.Received? && Enabled(s, e))
    requires e.Send? && Enabled(s, e) ==> |e.data| <= message && |s.output.Live()| <= unsent
    ensures |Step(s, e).output.mem| <= unsent + 4 * message + BUF_SIZE
  {
    Frames(s, e);
    if e.Send? && Enabled(s, e) {
      OutputStepCapacity(s.output, DoAppend(e.data, e.spare), message, unsent);
    }
    hide Step, Append, Readable, GrowthAllowed;
  }

  lemma {:induction false} ModestRun(s: Conn, events: seq<Event>, k: Limits)
    requires Inv(s) && WithinLimits(s, k) && Modest(s, events, k)
    ensures WithinLimits(After(s, events), k)
    decreases |events|
  {
    if events != [] {
      assert Modest(s, [events[0]], k) by { assert [events[0]][1..] == []; }
      StepKeepsInv(s, events[0]);
      ModestStep(s, events[0], k);
      hide Inv, Step, WithinLimits;
      ModestRun(Step(s, events[0]), events[1..], k);
    }
  }

  /** Neither buffer of a connection outgrows its bound, in any run within the limits. */
  lemma ConnectionCapacity(events: seq<Event>, k: Limits)
    requires Modest(Init(), events, k)
    ensures |Reached(events).input.mem| <= k.InputBound()
    ensures |Reached(events).output.mem| <= k.OutputBound()
  {
    InitInv();
    hide Step, After, Modest;
    ModestRun(Init(), events, k);
  }
}
