/** What the peer of a client connection gets. In every run the bytes it was meant to get are those
    submitted, in order; the bytes it does get are these exactly while no append disturbs the
    memory an outstanding write is still read from. */
module ConnectionWire {
  import opened Bytes
  import opened BufferModel
  import opened ConnectionModel

  // ---------- Every run ----------

  /** Writes follow each other without gap or repetition, errors and disturbances or not: an
      outstanding write was launched for exactly the submitted bytes that start where the wire was
      then, the wire is as long as the taken parts of these, and until a write fails the wire and
      the output buffer together are as long as what was submitted. */
  lemma WritesFollowSubmissions(events: seq<Event>)
    ensures var s := Reached(events);
            && s.output.Valid() && s.meant <= s.submitted && |s.meant| == |s.wire|
            && (!s.failed ==> |s.wire| + |s.output.Live()| == |s.submitted| + Taken(s))
            && (s.writeOps != [] ==>
                  var op := s.writeOps[0];
                  var start := |s.wire| - op.sent;
                  && 0 <= start && start + op.Len() <= |s.submitted|
                  && op.snapshot == s.submitted[start..start + op.Len()])
  {
    ReachedInv(events);
    hide Reached, ReadSchedule, InputInOrder, IdleLaw, CloseLaw;
    var s := Reached(events);
    if !s.failed {
      assert s.meant <= s.meant + s.output.Live()[Taken(s)..];
      if s.writeOps != [] {
        SnapshotPosition(s);
      }
    }
  }

  lemma SnapshotPosition(s: Conn)
    requires Schedule(s) && SnapshotLaw(s) && s.writeOps != []
    ensures var op := s.writeOps[0];
            var start := |s.wire| - op.sent;
            && 0 <= start && start + op.Len() <= |s.submitted|
            && op.snapshot == s.submitted[start..start + op.Len()]
  {
  }

  lemma MeantPrefix(s: Conn)
    requires Inv(s)
    ensures s.meant <= s.submitted && |s.meant| == |s.wire|
    ensures s.wire <= s.submitted <==> s.wire == s.meant
  {
  }

  /** So the peer has a prefix of what was submitted if and only if every byte it got is the one the
      write was launched for. */
  lemma PrefixMeansAsLaunched(events: seq<Event>)
    ensures var s := Reached(events); s.wire <= s.submitted <==> s.wire == s.meant
  {
    ReachedInv(events);
    hide Reached, Inv;
    MeantPrefix(Reached(events));
  }

  // ---------- Careful runs ----------

  /** The socket still finds the bytes a write was launched for. */
  predicate OpIntact(b: Buf, op: WriteOp) {
    op.sent <= op.Len() &&
    (op.sent == op.Len() || (Readable(b, op) && Unsent(b, op) == op.snapshot[op.sent..]))
  }

  predicate Intact(s: Conn) { s.writeOps != [] ==> OpIntact(s.output, s.writeOps[0]) }

  ghost predicate WireInv(s: Conn) { s.wire == s.meant && Intact(s) }

  /** An append of n bytes leaves the addresses the socket has yet to read from alone. */
  predicate Harmless(s: Conn, n: nat)
    requires s.output.r <= s.output.w <= |s.output.mem|
  {
    s.writeOps != [] ==>
      var op := s.writeOps[0];
      op.sent == op.Len() ||
      (Readable(s.output, op) && Undisturbed(s.output, n, op.at + op.sent, op.at + op.Len()))
  }

  ghost predicate Careful(s: Conn, events: seq<Event>)
    decreases |events|
  {
    events == [] ||
    (&& (events[0].Send? && Enabled(s, events[0]) ==> Harmless(s, |events[0].data|))
     && Careful(Step(s, events[0]), events[1..]))
  }

  /** A launched write covers exactly the live bytes. */
  lemma LaunchIsIntact(s: Conn)
    requires Schedule(s) && !s.sending
    ensures Intact(Launch(s))
  {
  }

  /** While a write is unfinished, an append keeps it intact exactly if it keeps its unsent bytes. */
  lemma SubmitIntactExactly(s: Conn, data: Message, spare: nat)
    requires Schedule(s) && Intact(s) && Unfinished(s)
    ensures var op := s.writeOps[0];
            && Readable(s.output, op)
            && (Intact(Submit(s, data, spare)) <==>
                SameBytes(s.output, Append(s.output, data, spare), op.at + op.sent, op.at + op.Len()))
  {
  }

  predicate Unfinished(s: Conn) {
    s.writeOps != [] && s.writeOps[0].sent < s.writeOps[0].Len()
  }

  lemma SubmitKeepsWire(s: Conn, data: Message, spare: nat)
    requires Schedule(s) && WireInv(s) && Harmless(s, |data|)
    ensures WireInv(Submit(s, data, spare))
  {
    hide Append, ReadSchedule, Undisturbed;
    if Unfinished(s) {
      var op := s.writeOps[0];
      SubmitIntactExactly(s, data, spare);
      AppendUndisturbed(s.output, data, spare, op.at + op.sent, op.at + op.Len());
      hide SameBytes, Intact, Readable;
    }
  }

  /** Taking bytes of an intact write takes what it was launched for and leaves it intact. */
  lemma TakingKeepsOpIntact(b: Buf, op: WriteOp, bytes: Message)
    requires OpIntact(b, op) && op.sent + |bytes| <= op.Len()
    requires Readable(b, op) ==> bytes <= Unsent(b, op)
    ensures var next := op.sent + |bytes|;
            bytes == op.snapshot[op.sent..next] && OpIntact(b, op.(sent := next))
  {
    var n := |bytes|;
    if op.sent < op.Len() {
      assert Unsent(b, op)[n..] == b.mem[op.at + op.sent + n..op.at + op.Len()];
    }
  }

  lemma TransmitKeepsWire(s: Conn, bytes: Message)
    requires Schedule(s) && WireInv(s) && Enabled(s, Transmit(bytes))
    ensures WireInv(TransmitStep(s, bytes))
  {
    hide Schedule, OpIntact, BuffersValid, Readable, Unsent;
    OneUnfailed(s);
    TakingKeepsOpIntact(s.output, s.writeOps[0], bytes);
  }

  lemma StepKeepsWire(s: Conn, e: Event)
    requires Inv(s) && WireInv(s)
    requires e.Send? && Enabled(s, e) ==> Harmless(s, |e.data|)
    ensures WireInv(Step(s, e))
  {
    Frames(s, e);
    Handlers(s, e);
    hide Step, InputInOrder, IdleLaw, CloseLaw, SnapshotLaw;
    if Enabled(s, e) && e.Send? {
      SubmitKeepsSchedule(s, e.data, e.spare);
      SubmitKeepsFlags(s, e.data, e.spare);
      SubmitKeepsWire(s, e.data, e.spare);
      hide Submit, Schedule, Intact, Harmless, Append, GrowthAllowed;
      if !Submit(s, e.data, e.spare).sending { LaunchIsIntact(Submit(s, e.data, e.spare)); }
    } else if Enabled(s, e) && e.Transmit? {
      TransmitKeepsWire(s, e.bytes);
      hide TransmitStep, Intact, Readable, Unsent, Schedule;
    } else if Enabled(s, e) && e.Sent? {
      CompletedKeepsSchedule(s);
      LaunchIsIntact(Completed(s));
      hide RetrieveRead, Schedule;
    } else {
      hide Append, RetrieveRead, Readable, Unsent, GrowthAllowed;
    }
  }

  lemma {:induction false} RunKeepsWire(s: Conn, events: seq<Event>)
    requires Inv(s) && WireInv(s) && Careful(s, events)
    ensures Inv(After(s, events)) && WireInv(After(s, events))
    decreases |events|
  {
    hide Inv, WireInv, Step, Harmless;
    if events != [] {
      StepKeepsInv(s, events[0]);
      StepKeepsWire(s, events[0]);
      RunKeepsWire(Step(s, events[0]), events[1..]);
    }
  }

  /** In every careful run, write errors included, the peer has a prefix of what was submitted, in
      order and without gap or repetition; until a write fails, the rest is exactly what the
      output buffer still holds behind the bytes already taken. */
  lemma WireIsPrefix(events: seq<Event>)
    requires Careful(Init(), events)
    ensures var s := Reached(events);
            && s.wire <= s.submitted && s.output.Valid()
            && (!s.failed ==> Taken(s) <= |s.output.Live()| &&
                              s.wire + s.output.Live()[Taken(s)..] == s.submitted)
  {
    InitInv();
    var s := Reached(events);
    assert WireInv(Init());
    hide After, Careful, Init;
    RunKeepsWire(Init(), events);
    MeantPrefix(s);
    hide InputInOrder, IdleLaw, CloseLaw;
  }

  // ---------- A condition a caller can check before each send ----------

  /** Every append made while a write is outstanding takes the first branch, writableCount() >
      datalen. */
  ghost predicate Roomy(s: Conn, events: seq<Event>)
    decreases |events|
  {
    events == [] ||
    (&& (events[0].Send? && Enabled(s, events[0]) && s.writeOps != [] ==> Fits(s.output, |events[0].data|))
     && Roomy(Step(s, events[0]), events[1..]))
  }

  /** As long as no append has shifted or grown the buffer under it, the outstanding write covers
      the front of the live bytes. */
  predicate WriteAtFront(s: Conn) {
    s.writeOps != [] ==>
      var op := s.writeOps[0];
      && op.generation == s.output.generation
      && op.at == s.output.r && op.at + op.Len() <= s.output.w
  }

  lemma FrontIsHarmless(s: Conn, n: nat)
    requires Schedule(s) && WriteAtFront(s) && (s.writeOps != [] ==> Fits(s.output, n))
    ensures Harmless(s, n)
  {
    hide ReadSchedule;
  }

  lemma RoomyStep(s: Conn, e: Event)
    requires Schedule(s) && WriteAtFront(s)
    requires e.Send? && Enabled(s, e) && s.writeOps != [] ==> Fits(s.output, |e.data|)
    ensures WriteAtFront(Step(s, e))
    ensures e.Send? && Enabled(s, e) ==> Harmless(s, |e.data|)
  {
    Frames(s, e);
    Handlers(s, e);
    if e.Send? && Enabled(s, e) {
      FrontIsHarmless(s, |e.data|);
    }
    hide Step, ReadSchedule, Readable, Unsent, ReceivedStep, Harmless;
  }

  lemma {:induction false} RoomyIsCareful(s: Conn, events: seq<Event>)
    requires Inv(s) && WriteAtFront(s) && Roomy(s, events)
    ensures Careful(s, events)
    decreases |events|
  {
    if events != [] {
      StepKeepsInv(s, events[0]);
      RoomyStep(s, events[0]);
      hide Inv, Step, Harmless, WriteAtFront;
      RoomyIsCareful(Step(s, events[0]), events[1..]);
    }
  }

  lemma RoomyWireIsPrefix(events: seq<Event>)
    requires Roomy(Init(), events)
    ensures Reached(events).wire <= Reached(events).submitted
  {
    InitInv();
    assert WriteAtFront(Init());
    hide *;
    RoomyIsCareful(Init(), events);
    WireIsPrefix(events);
  }

  // ---------- Delivery ----------

  /** In a careful run a connected connection without a write under way has delivered everything
      submitted if and only if something was sent since CONNECTED was entered or nothing was
      stranded then. */
  lemma DeliveredExactly(events: seq<Event>)
    requires Careful(Init(), events)
    ensures var s := Reached(events);
            s.link == Connected && !s.sending ==>
              (s.wire == s.submitted <==> s.sentSinceUp || !s.strandedAtUp)
  {
    var s := Reached(events);
    WireIsPrefix(events);
    IdleExactly(events);
    Scheduling(events);
    hide Reached, Careful;
    if !s.failed && s.writeOps == [] {
      assert s.output.Live()[0..] == s.output.Live();
      assert |s.wire + s.output.Live()| == |s.wire| + |s.output.Live()|;
      if s.output.r == s.output.w {
        assert s.wire + [] == s.wire;
      }
    }
  }

  /** What may happen to a connection that stays up while nobody sends. */
  predicate StaysUp(e: Event) { !e.Send? && !e.Close? && !e.ReceiveFails? && !e.SendFails? }

  /** How many completions away the output buffer is from being empty: the outstanding write, and
      one more for what was appended behind it. */
  function CompletionsLeft(s: Conn): (n: nat)
    requires s.output.r <= s.output.w <= |s.output.mem|
    ensures n <= 2
  {
    if s.writeOps == [] then 0 else if s.writeOps[0].Len() == |s.output.Live()| then 1 else 2
  }

  /** The completions among a run's events. */
  ghost function Completions(s: Conn, events: seq<Event>): nat
    decreases |events|
  {
    if events == [] then 0
    else (if events[0].Sent? && Enabled(s, events[0]) then 1 else 0) +
         Completions(Step(s, events[0]), events[1..])
  }

  /** Once sends stop, each completion brings a connected, error-free connection one nearer to an
      empty output, from at most two; until then the socket can go on, and then the peer has
      everything. */
  lemma {:induction false} DrainsInTwo(s: Conn, events: seq<Event>)
    requires Inv(s) && WireInv(s) && s.link == Connected && !s.failed
    requires forall e :: e in events ==> StaysUp(e)
    ensures var t := After(s, events);
            && t.output.Valid() && t.submitted == s.submitted
            && CompletionsLeft(t) == CompletionsLeft(s) - Completions(s, events)
            && (CompletionsLeft(t) > 0 ==>
                  Enabled(t, Sent) || exists bytes :: bytes != [] && Enabled(t, Transmit(bytes)))
            && (CompletionsLeft(t) == 0 && (s.sentSinceUp || !s.strandedAtUp) ==> t.wire == t.submitted)
    decreases |events|
  {
    hide Step, CompletionsLeft, Enabled, Inv, WireInv;
    InvParts(s);
    if events == [] {
      CanGoOn(s);
      EmptyIsDelivered(s);
    } else {
      assert events[0] in events && forall e :: e in events[1..] ==> e in events;
      StepKeepsInv(s, events[0]);
      StepKeepsWire(s, events[0]);
      CompletionStep(s, events[0]);
      DrainsInTwo(Step(s, events[0]), events[1..]);
    }
  }

  /** The next bytes of an unfinished write, or its completion, can come. */
  lemma CanGoOn(s: Conn)
    requires Inv(s) && WireInv(s)
    ensures s.output.Valid()
    ensures CompletionsLeft(s) > 0 ==>
              Enabled(s, Sent) || exists bytes :: bytes != [] && Enabled(s, Transmit(bytes))
  {
    if Unfinished(s) {
      UnsentInPlace(s);
      var bytes := Unsent(s.output, s.writeOps[0]);
      assert bytes != [] && Enabled(s, Transmit(bytes));
    }
    hide InputInOrder, IdleLaw, CloseLaw, SnapshotLaw;
  }

  lemma EmptyIsDelivered(s: Conn)
    requires Inv(s) && WireInv(s) && s.link == Connected && !s.failed
    ensures s.output.Valid()
    ensures CompletionsLeft(s) == 0 && (s.sentSinceUp || !s.strandedAtUp) ==> s.wire == s.submitted
  {
    hide ReadSchedule, InputInOrder, CloseLaw, Intact;
    if s.writeOps == [] && (s.sentSinceUp || !s.strandedAtUp) {
      assert s.output.Live() == [] && s.meant + [] == s.meant;
    }
  }

  lemma CompletionStep(s: Conn, e: Event)
    requires Inv(s) && s.link == Connected && !s.failed && StaysUp(e)
    ensures var t := Step(s, e);
            && s.output.Valid() && t.output.Valid() && t.link == Connected && !t.failed
            && t.submitted == s.submitted
            && t.sentSinceUp == s.sentSinceUp && t.strandedAtUp == s.strandedAtUp
            && CompletionsLeft(t) == CompletionsLeft(s) - (if e.Sent? && Enabled(s, e) then 1 else 0)
  {
    hide InputInOrder, IdleLaw, CloseLaw, SnapshotLaw, ReadSchedule;
    StepKeepsInv(s, e);
    InvParts(Step(s, e));
    if Enabled(s, e) && e.Sent? {
      SentCompletes(s);
      hide Inv, SentStep;
    } else {
      OtherStepsKeepWrite(s, e);
      hide Inv, Step;
    }
  }

  lemma SentCompletes(s: Conn)
    requires Schedule(s) && s.link == Connected && Enabled(s, Sent)
    ensures var t := SentStep(s);
            && t.output.Valid() && t.link == Connected && t.failed == s.failed
            && t.submitted == s.submitted
            && t.sentSinceUp == s.sentSinceUp && t.strandedAtUp == s.strandedAtUp
            && CompletionsLeft(t) == CompletionsLeft(s) - 1
  {
    RetrievedLive(s.output, s.writeOps[0].Len());
    hide RetrieveRead, ReadSchedule;
  }

  lemma OtherStepsKeepWrite(s: Conn, e: Event)
    requires Schedule(s) && s.link == Connected && StaysUp(e) && !(Enabled(s, e) && e.Sent?)
    ensures var t := Step(s, e);
            && t.output == s.output && t.link == Connected && t.failed == s.failed
            && t.submitted == s.submitted
            && t.sentSinceUp == s.sentSinceUp && t.strandedAtUp == s.strandedAtUp
            && |t.writeOps| == |s.writeOps|
            && (t.writeOps != [] ==> t.writeOps[0].Len() == s.writeOps[0].Len())
  {
    Frames(s, e);
    hide Append, RetrieveRead;
    if !Enabled(s, e) || !e.Transmit? {
      hide Step;
    } else {
      hide SendStep, SentStep, ReceivedStep, Readable;
    }
  }

  // ---------- Exactly when the wire is safe ----------

  /** Whatever the socket takes next of the outstanding write, the peer keeps a prefix of what was
      submitted. */
  ghost predicate Safe(s: Conn) {
    forall bytes: Message :: Enabled(s, Transmit(bytes)) ==>
      Step(s, Transmit(bytes)).wire <= Step(s, Transmit(bytes)).submitted
  }

  /** A disturbed write is visible: while the peer has a prefix and the write is unfinished, the
      next bytes are safe if and only if the memory still holds what the write was launched for. */
  lemma SafeExactly(s: Conn)
    requires Inv(s) && s.wire <= s.submitted && Unfinished(s)
    ensures Safe(s) <==> Intact(s)
  {
    MeantPrefix(s);
    if Intact(s) {
      forall bytes: Message | Enabled(s, Transmit(bytes))
        ensures Step(s, Transmit(bytes)).wire <= Step(s, Transmit(bytes)).submitted
      {
        IntactIsSafe(s, bytes);
      }
    } else {
      hide Inv;
      var bytes := WrongBytes(s);
      WrongBytesShow(s);
      hide Intact, Enabled, Step;
      assert Enabled(s, Transmit(bytes));
    }
  }

  lemma IntactIsSafe(s: Conn, bytes: Message)
    requires Inv(s) && WireInv(s) && Enabled(s, Transmit(bytes))
    ensures Step(s, Transmit(bytes)).wire <= Step(s, Transmit(bytes)).submitted
  {
  }

  /** All unsent bytes if the socket can read them, otherwise one that differs. */
  function WrongBytes(s: Conn): Message
    requires Unfinished(s)
  {
    var op := s.writeOps[0];
    if Readable(s.output, op) then Unsent(s.output, op)
    else [if op.snapshot[op.sent] == 0 then 1 else 0]
  }

  lemma WrongBytesShow(s: Conn)
    requires Inv(s) && s.wire == s.meant && Unfinished(s) && !Intact(s)
    ensures var e := Transmit(WrongBytes(s));
            Enabled(s, e) && !(Step(s, e).wire <= Step(s, e).submitted)
  {
    hide Step, InputInOrder, IdleLaw, CloseLaw, SnapshotLaw, ReadSchedule;
    WrongBytesDiffer(s);
    WrongBytesEnabled(s);
    hide Enabled, Intact, WrongBytes, Inv;
    BytesShow(s, WrongBytes(s));
  }

  lemma WrongBytesDiffer(s: Conn)
    requires Unfinished(s) && !Intact(s)
    ensures var op, bytes := s.writeOps[0], WrongBytes(s);
            && op.sent + |bytes| <= op.Len()
            && bytes != op.snapshot[op.sent..op.sent + |bytes|]
  {
  }

  lemma WrongBytesEnabled(s: Conn)
    requires BuffersValid(s) && Unfinished(s)
    ensures Enabled(s, Transmit(WrongBytes(s)))
  {
  }

  /** Bytes that differ from those the write was launched for are visible. */
  lemma BytesShow(s: Conn, bytes: Message)
    requires Inv(s) && s.wire == s.meant && Unfinished(s) && Enabled(s, Transmit(bytes))
    requires var op := s.writeOps[0];
             op.sent + |bytes| <= op.Len() && bytes != op.snapshot[op.sent..op.sent + |bytes|]
    ensures var t := Step(s, Transmit(bytes)); t.wire == s.wire + bytes && !(t.wire <= t.submitted)
  {
    hide Inv;
    var op := s.writeOps[0];
    StepKeepsInv(s, Transmit(bytes));
    assert Step(s, Transmit(bytes)) == TransmitStep(s, bytes) by { hide Enabled, TransmitStep; }
    hide Step, Enabled;
    MeantPrefix(TransmitStep(s, bytes));
    TailsDiffer(s.wire, bytes, op.snapshot[op.sent..op.sent + |bytes|]);
  }

  lemma TailsDiffer(a: Message, b: Message, c: Message)
    requires b != c && |b| == |c|
    ensures a + b != a + c
  {
    assert (a + b)[|a|..] == b && (a + c)[|a|..] == c;
  }

  // ---------- Exactly which appends are safe ----------

  /** A send while a write is outstanding only appends. */
  lemma SendDuringWrite(s: Conn, data: Message, spare: nat)
    requires Inv(s) && s.writeOps != [] && Enabled(s, Send(data, spare))
    ensures var t := Step(s, Send(data, spare));
            && Inv(t) && t == Submit(s, data, spare)
            && t.writeOps == s.writeOps && t.wire == s.wire && t.meant == s.meant
  {
    assert s.sending;
    StepKeepsInv(s, Send(data, spare));
    hide Inv, GrowthAllowed, Append;
  }

  lemma SendSafeExactly(s: Conn, data: Message, spare: nat)
    requires Inv(s) && WireInv(s) && Unfinished(s) && Enabled(s, Send(data, spare))
    ensures Schedule(s) && (Safe(Step(s, Send(data, spare))) <==> Intact(Submit(s, data, spare)))
  {
    var t := Step(s, Send(data, spare));
    SendDuringWrite(s, data, spare);
    assert Schedule(s) && s.wire == s.meant;
    assert Unfinished(t) && t.wire == t.meant;
    hide Inv, Step, Enabled, Intact, Submit, Safe;
    MeantPrefix(t);
    SafeExactly(t);
  }

  /** While a write is unfinished, an append is safe if and only if it keeps the storage and puts
      no other byte where the socket has yet to read. */
  lemma AppendSafeExactly(s: Conn, data: Message, spare: nat)
    requires Inv(s) && WireInv(s) && Unfinished(s) && Enabled(s, Send(data, spare))
    ensures var b, op := s.output, s.writeOps[0];
            && b.Valid() && op.at + op.Len() <= |b.mem|
            && (Safe(Step(s, Send(data, spare))) <==>
                && KeepsStorage(b, |data|)
                && forall k :: op.at + op.sent <= k < op.at + op.Len() ==> Landing(b, data, k) == b.mem[k])
  {
    hide Inv, Step, Enabled, Safe, WireInv, Intact, Submit, Landing, SameBytes, KeepsStorage, Schedule;
    var op := s.writeOps[0];
    UnsentInPlace(s);
    SendSafeExactly(s, data, spare);
    SubmitIntactExactly(s, data, spare);
    SameBytesExactly(s.output, data, spare, op.at + op.sent, op.at + op.Len());
  }

  lemma UnsentInPlace(s: Conn)
    requires Inv(s) && WireInv(s) && Unfinished(s)
    ensures Schedule(s) && Intact(s) && s.output.Valid() && s.output.r <= s.output.w < |s.output.mem|
    ensures s.writeOps != [] && s.writeOps[0].at + s.writeOps[0].Len() <= |s.output.mem|
  {
  }

  /** The same connection at the same position of the stream, with other bytes sent and stored. */
  predicate SameShape(s: Conn, t: Conn)
    requires s.writeOps != []
  {
    && t == s.(output := t.output, writeOps := t.writeOps, submitted := t.submitted,
               wire := t.wire, meant := t.meant)
    && |t.wire| == |s.wire|
    && t.output == s.output.(mem := t.output.mem) && |t.output.mem| == |s.output.mem|
    && t.writeOps != [] && t.writeOps == [s.writeOps[0].(snapshot := t.writeOps[0].snapshot)]
    && t.writeOps[0].Len() == s.writeOps[0].Len()
  }

  /** Appends of n bytes are safe whatever the storage and the data hold. */
  ghost predicate SafeForAll(s: Conn, n: nat)
    requires s.writeOps != []
  {
    forall t, data: Message, spare: nat ::
      Inv(t) && WireInv(t) && SameShape(s, t) && |data| == n ==> Safe(Step(t, Send(data, spare)))
  }

  /** The condition is exact in every state a careful run reaches: while a write is unfinished,
      appends of n bytes are harmless if and only if they are safe for every content of the storage
      the write could have been launched with and all data. */
  lemma HarmlessExactly(s: Conn, n: nat)
    requires Inv(s) && WireInv(s) && Unfinished(s) && GrowthAllowed(s.output, n)
    ensures Harmless(s, n) <==> SafeForAll(s, n)
  {
    if Harmless(s, n) {
      forall t, data: Message, spare: nat
        | Inv(t) && WireInv(t) && SameShape(s, t) && |data| == n
        ensures Safe(Step(t, Send(data, spare)))
      {
        HarmlessIsSafe(s, t, data, spare);
      }
    } else {
      HarmfulIsUnsafe(s, n);
      var t := Refilled(s, Shown(s, n));
      hide Inv, WireInv, SameShape, Safe, Step;
      assert !Safe(Step(t, Send(Copies(n, 1), 0)));
    }
  }

  lemma HarmlessIsSafe(s: Conn, t: Conn, data: Message, spare: nat)
    requires s.output.Valid() && s.writeOps != [] && SameShape(s, t) && Harmless(s, |data|)
    requires Inv(t) && WireInv(t) && Unfinished(t) && GrowthAllowed(t.output, |data|)
    ensures Safe(Step(t, Send(data, spare)))
  {
    assert Enabled(t, Send(data, spare));
    assert Schedule(t);
    SubmitKeepsWire(t, data, spare);
    hide Inv, Enabled, Step, Safe, Submit;
    SendSafeExactly(t, data, spare);
  }

  /** The connection as it would be had its storage been filled like this. */
  function Refilled(s: Conn, mem: Message): Conn
    requires Refillable(s, mem)
  {
    var b, op := s.output.(mem := mem), s.writeOps[0];
    var before := s.wire[..|s.wire| - op.sent];
    var wire := before + b.Live()[..op.sent];
    s.(output := b, wire := wire, meant := wire, submitted := before + b.Live(),
       writeOps := [op.(snapshot := b.Live()[..op.Len()])])
  }

  predicate Refillable(s: Conn, mem: Message) {
    && s.output.r <= s.output.w < |s.output.mem| == |mem|
    && |s.writeOps| == 1 && s.writeOps[0].sent <= |s.wire|
    && s.writeOps[0].sent <= s.writeOps[0].Len() <= s.output.w - s.output.r
  }

  lemma RefilledSchedule(s: Conn, mem: Message)
    requires Schedule(s) && IdleLaw(s) && Refillable(s, mem)
    ensures Schedule(Refilled(s, mem)) && IdleLaw(Refilled(s, mem))
  {
  }

  lemma RefilledSnapshot(s: Conn, mem: Message)
    requires Schedule(s) && Refillable(s, mem)
    ensures Schedule(Refilled(s, mem)) ==> SnapshotLaw(Refilled(s, mem))
  {
  }

  lemma RefilledIntact(s: Conn, mem: Message)
    requires Schedule(s) && Intact(s) && Unfinished(s) && Refillable(s, mem)
    requires s.writeOps[0].at == s.output.r || forall k :: 0 <= k < |mem| ==> mem[k] == 0
    ensures Intact(Refilled(s, mem))
  {
    RefilledOpIntact(s.output, s.writeOps[0], mem);
    hide Schedule, OpIntact;
  }

  lemma RefilledOpIntact(b: Buf, op: WriteOp, mem: Message)
    requires OpIntact(b, op) && op.sent < op.Len() <= b.w - b.r
    requires b.r <= b.w <= |mem| == |b.mem|
    requires op.at == b.r || forall k :: 0 <= k < |mem| ==> mem[k] == 0
    ensures var c := b.(mem := mem); OpIntact(c, op.(snapshot := c.Live()[..op.Len()]))
  {
    assert mem[op.at + op.sent..op.at + op.Len()] == mem[b.r + op.sent..b.r + op.Len()];
    SliceOfSlice(mem, b.r, b.w, op.sent, op.Len());
  }

  lemma SliceOfSlice(mem: Message, r: nat, w: nat, lo: nat, hi: nat)
    requires r <= w <= |mem| && lo <= hi <= w - r
    ensures mem[r..w][..hi][lo..] == mem[r + lo..r + hi]
  {
    assert mem[r..w][..hi] == mem[r..r + hi];
  }

  lemma RefilledInv(s: Conn, mem: Message)
    requires Inv(s) && WireInv(s) && Unfinished(s) && |mem| == |s.output.mem|
    requires s.writeOps[0].at == s.output.r || forall k :: 0 <= k < |mem| ==> mem[k] == 0
    ensures Refillable(s, mem)
    ensures var t := Refilled(s, mem); Inv(t) && WireInv(t) && SameShape(s, t) && Unfinished(t)
  {
    assert Refillable(s, mem);
    RefilledSchedule(s, mem);
    RefilledSnapshot(s, mem);
    RefilledIntact(s, mem);
    hide Schedule, IdleLaw, CloseLaw, SnapshotLaw, Intact;
  }

  /** The content that shows the harm. */
  function Shown(s: Conn, n: nat): (mem: Message)
    requires s.writeOps != [] && s.output.w <= |s.output.mem|
    ensures |mem| == |s.output.mem|
  {
    DisturbingMem(s.output, n, s.writeOps[0].at + s.writeOps[0].sent)
  }

  lemma ShownIsConsistent(s: Conn, n: nat)
    requires Schedule(s) && s.writeOps != []
    ensures s.writeOps[0].at == s.output.r || forall k :: 0 <= k < |Shown(s, n)| ==> Shown(s, n)[k] == 0
  {
  }

  lemma HarmfulMeans(s: Conn, n: nat)
    requires Schedule(s) && Intact(s) && Unfinished(s) && !Harmless(s, n)
    ensures var op := s.writeOps[0];
            && s.output.Valid() && op.sent < op.Len() && op.at + op.Len() <= |s.output.mem|
            && !Undisturbed(s.output, n, op.at + op.sent, op.at + op.Len())
  {
  }

  lemma HarmfulDisturbs(s: Conn, n: nat)
    requires Schedule(s) && Intact(s) && Unfinished(s) && !Harmless(s, n)
    ensures var op, c := s.writeOps[0], s.output.(mem := Shown(s, n));
            && (op.at == s.output.r || forall k :: 0 <= k < |c.mem| ==> c.mem[k] == 0)
            && op.at + op.Len() <= |s.output.mem|
            && !SameBytes(c, Append(c, Copies(n, 1), 0), op.at + op.sent, op.at + op.Len())
  {
    hide Schedule, Intact, Harmless, Append, Undisturbed, SameBytes, DisturbingMem;
    var op := s.writeOps[0];
    ShownIsConsistent(s, n);
    HarmfulMeans(s, n);
    DisturbingBytesDisturb(s.output, n, 0, op.at + op.sent, op.at + op.Len());
  }

  lemma RefilledCanSend(s: Conn, mem: Message, data: Message)
    requires Inv(s) && WireInv(s) && Unfinished(s) && |mem| == |s.output.mem|
    requires s.writeOps[0].at == s.output.r || forall k :: 0 <= k < |mem| ==> mem[k] == 0
    requires GrowthAllowed(s.output, |data|)
    ensures Refillable(s, mem)
    ensures var t := Refilled(s, mem);
            && Inv(t) && WireInv(t) && SameShape(s, t) && Unfinished(t) && Schedule(t)
            && Enabled(t, Send(data, 0))
            && t.output == s.output.(mem := mem)
            && t.writeOps[0].at == s.writeOps[0].at && t.writeOps[0].sent == s.writeOps[0].sent
            && t.writeOps[0].Len() == s.writeOps[0].Len()
  {
    RefilledInv(s, mem);
    assert Schedule(Refilled(s, mem));
    hide ReadSchedule, WriteSchedule, InputInOrder, IdleLaw, CloseLaw, SnapshotLaw, Intact;
  }

  lemma DisturbedIsUnsafe(t: Conn, data: Message)
    requires Inv(t) && WireInv(t) && Unfinished(t) && Enabled(t, Send(data, 0)) && Schedule(t)
    requires var op := t.writeOps[0];
             && op.at + op.Len() <= |t.output.mem|
             && !SameBytes(t.output, Append(t.output, data, 0), op.at + op.sent, op.at + op.Len())
    ensures !Safe(Step(t, Send(data, 0)))
  {
    assert Intact(t);
    hide Inv, WireInv, Append, Safe, Step, Schedule, Intact, Enabled, SameBytes;
    SendSafeExactly(t, data, 0);
    SubmitIntactExactly(t, data, 0);
  }

  lemma HarmfulIsUnsafe(s: Conn, n: nat)
    requires Inv(s) && WireInv(s) && Unfinished(s) && GrowthAllowed(s.output, n) && !Harmless(s, n)
    ensures Refillable(s, Shown(s, n))
    ensures var t := Refilled(s, Shown(s, n));
            Inv(t) && WireInv(t) && SameShape(s, t) && !Safe(Step(t, Send(Copies(n, 1), 0)))
  {
    hide *;
    UnsentInPlace(s);
    HarmfulDisturbs(s, n);
    RefilledCanSend(s, Shown(s, n), Copies(n, 1));
    DisturbedIsUnsafe(Refilled(s, Shown(s, n)), Copies(n, 1));
  }

  /** Whenever an append outgrows the capacity while the socket still has bytes to take, the peer
      may get a wrong byte next. */
  lemma GrowthBreaksWire(s: Conn, data: Message, spare: nat, wrong: byte)
    requires Inv(s) && WireInv(s) && Unfinished(s) && Enabled(s, Send(data, spare))
    requires !KeepsStorage(s.output, |data|)
    requires wrong != s.writeOps[0].snapshot[s.writeOps[0].sent]
    ensures var t := Step(s, Send(data, spare));
            && Enabled(t, Transmit([wrong]))
            && Step(t, Transmit([wrong])).wire == s.wire + [wrong]
            && !(s.wire + [wrong] <= Step(t, Transmit([wrong])).submitted)
  {
    var t, op := Step(s, Send(data, spare)), s.writeOps[0];
    SendDuringWrite(s, data, spare);
    OutgrownIsUnreadable(s, data, spare);
    assert BuffersValid(t) && s.wire == s.meant;
    hide Inv, Step, Submit, Append, KeepsStorage, Readable, BuffersValid;
    assert Enabled(t, Transmit([wrong]));
    assert op.snapshot[op.sent..op.sent + 1][0] == op.snapshot[op.sent];
    BytesShow(t, [wrong]);
  }

  lemma OutgrownIsUnreadable(s: Conn, data: Message, spare: nat)
    requires Inv(s) && s.writeOps != [] && !KeepsStorage(s.output, |data|)
    ensures !Readable(Submit(s, data, spare).output, s.writeOps[0])
  {
  }

  // ---------- Runs in which the law fails ----------

  lemma ReachedSnoc(events: seq<Event>, e: Event)
    ensures Reached(events + [e]) == Step(Reached(events), e)
  {
    hide Step;
    AfterConcat(Init(), events, [e]);
    OneStep(Reached(events), e);
  }

  /** Where a careful run stands: the outstanding write, the indices of an output buffer of the
      initial size, how much the peer has, and what was submitted. */
  ghost predicate At(s: Conn, at: nat, len: nat, sent: nat, r: nat, w: nat, wire: nat, submitted: Message) {
    && Inv(s) && WireInv(s) && s.link == Connected && s.submitted == submitted && |s.wire| == wire
    && |s.writeOps| == 1 && s.writeOps[0].generation == 0
    && s.writeOps[0].at == at && s.writeOps[0].Len() == len && s.writeOps[0].sent == sent
    && s.output.r == r && s.output.w == w
    && |s.output.mem| == BUF_SIZE && s.output.generation == 0 && s.output.capacity == BUF_SIZE
  }

  /** A first write is outstanding. */
  lemma FirstWrite(data: Message, spare: nat)
    requires |data| < BUF_SIZE
    ensures At(Reached([Connect, Send(data, spare)]), 0, |data|, 0, 0, |data|, 0, data)
  {
    hide Inv, Step, Intact, After, Init;
    var s1 := Step(Init(), Connect);
    TwoSteps(Init(), Connect, Send(data, spare));
    InitInv();
    StepKeepsInv(Init(), Connect);
    StepKeepsInv(s1, Send(data, spare));
    FirstSend(data, spare);
  }

  lemma FirstSend(data: Message, spare: nat)
    requires |data| < BUF_SIZE
    ensures var s := Step(Step(Init(), Connect), Send(data, spare));
            && s.link == Connected && s.submitted == data && s.wire == [] == s.meant && Intact(s)
            && s.writeOps == [WriteOp(0, 0, 0, data)]
            && s.output.r == 0 && s.output.w == |data| && |s.output.mem| == BUF_SIZE
            && s.output.generation == 0 && s.output.capacity == BUF_SIZE
  {
  }

  lemma AppendAt(b: Buf, d: Message, spare: nat)
    requires b.Valid() && (Fits(b, |d|) || Shifts(b, |d|))
    ensures var t := Append(b, d, spare);
            && |t.mem| == |b.mem| && t.generation == b.generation && t.capacity == b.capacity
            && t.r == (if Fits(b, |d|) then b.r else 0)
            && t.w == (if Fits(b, |d|) then b.w else b.w - b.r) + |d|
  {
  }

  /** A harmless append on one of the first two branches. */
  lemma SendAt(s: Conn, at: nat, len: nat, sent: nat, r: nat, w: nat, wire: nat, all: Message,
               data: Message, spare: nat)
    requires At(s, at, len, sent, r, w, wire, all)
    requires (w + |data| < BUF_SIZE && at + len <= w) ||
             (BUF_SIZE - w + |data| < r && w + |data| >= BUF_SIZE && w - r + |data| <= at + sent)
    ensures At(Step(s, Send(data, spare)), at, len, sent,
               if w + |data| < BUF_SIZE then r else 0, (if w + |data| < BUF_SIZE then w else w - r) + |data|,
               wire, all + data)
  {
    var b := s.output;
    assert b.Valid() && (Fits(b, |data|) || Shifts(b, |data|)) && Enabled(s, Send(data, spare));
    AppendAt(b, data, spare);
    SendDuringWrite(s, data, spare);
    assert Harmless(s, |data|) by { hide Inv; }
    StepKeepsWire(s, Send(data, spare));
    hide Inv, WireInv, Step, Harmless, Append;
  }

  /** The socket takes all of the outstanding write. */
  lemma TransmitAt(s: Conn, at: nat, len: nat, r: nat, w: nat, wire: nat, all: Message, bytes: Message)
    requires At(s, at, len, 0, r, w, wire, all) && wire + len <= |all| && bytes == all[wire..wire + len]
    ensures At(Step(s, Transmit(bytes)), at, len, len, r, w, wire + len, all)
  {
    hide Inv, WireInv, Step, Enabled;
    NextWrite(s);
    StepKeepsInv(s, Transmit(bytes));
    StepKeepsWire(s, Transmit(bytes));
  }

  /** A write not yet begun can be taken whole: it is the next bytes submitted. */
  lemma NextWrite(s: Conn)
    requires Inv(s) && WireInv(s) && s.writeOps != [] && s.writeOps[0].sent == 0
    ensures var bytes := s.writeOps[0].snapshot;
            && |s.wire| + |bytes| <= |s.submitted|
            && bytes == s.submitted[|s.wire|..|s.wire| + |bytes|]
            && Enabled(s, Transmit(bytes)) && Step(s, Transmit(bytes)) == TransmitStep(s, bytes)
  {
    hide ReadSchedule, InputInOrder, IdleLaw, CloseLaw, TransmitStep;
    SnapshotPosition(s);
    assert s.writeOps[0].snapshot[0..] == s.writeOps[0].snapshot;
  }

  lemma RetrieveAt(b: Buf, count: nat)
    requires b.Valid() && |b.mem| < TWO_32 && b.r + count < b.w
    ensures RetrieveRead(b, count) == b.(r := b.r + count)
  {
  }

  lemma SentAt(s: Conn, at: nat, len: nat, r: nat, w: nat, wire: nat, all: Message)
    requires At(s, at, len, len, r, w, wire, all) && r + len < w < BUF_SIZE
    ensures At(Step(s, Sent), r + len, w - r - len, 0, r + len, w, wire, all)
  {
    hide Inv, WireInv, Step, RetrieveRead, Intact;
    InvParts(s);
    HandlerSteps(s, Sent);
    StepKeepsWire(s, Sent);
    RetrieveAt(s.output, len);
    hide Enabled;
    assert SentStep(s) == Launch(Completed(s));
  }

  /** The prefix law does not hold of all runs: a second message sent before the first write is
      complete outgrows the buffer, and the peer gets a byte nobody submitted. */
  lemma WireLawFails(events: seq<Event>, spare: nat)
    requires events == [Connect, Send(Copies(4000, 1), 0), Send(Copies(200, 1), spare), Transmit([0])]
    ensures !(Reached(events).wire <= Reached(events).submitted)
  {
    var start, second := [Connect, Send(Copies(4000, 1), 0)], Send(Copies(200, 1), spare);
    assert events == (start + [second]) + [Transmit([0])];
    hide *;
    FirstWrite(Copies(4000, 1), 0);
    ReachedSnoc(start, second);
    ReachedSnoc(start + [second], Transmit([0]));
    SecondOutgrows(Reached(start), spare);
  }

  lemma SecondOutgrows(s: Conn, spare: nat)
    requires At(s, 0, 4000, 0, 0, 4000, 0, Copies(4000, 1))
    ensures var t := Step(Step(s, Send(Copies(200, 1), spare)), Transmit([0]));
            !(t.wire <= t.submitted)
  {
    assert Copies(4000, 1)[0] == 1;
    hide Inv, WireInv, Step, Copies, At, Enabled;
    AtFacts(s, 0, 4000, 0, 0, 4000, 0, Copies(4000, 1));
    assert !KeepsStorage(s.output, 200) && GrowthAllowed(s.output, 200);
    hide KeepsStorage, GrowthAllowed, Unfinished;
    SendEnabled(s, Copies(200, 1), spare);
    GrowthBreaksWire(s, Copies(200, 1), spare, 0);
  }

  lemma AtFacts(s: Conn, at: nat, len: nat, sent: nat, r: nat, w: nat, wire: nat, all: Message)
    requires At(s, at, len, sent, r, w, wire, all) && sent < len
    ensures Inv(s) && WireInv(s) && Unfinished(s) && wire < |all|
    ensures s.writeOps[0].snapshot[s.writeOps[0].sent] == all[wire]
    ensures s.writeOps[0].at == at && s.writeOps[0].sent == sent && s.writeOps[0].Len() == len
    ensures BuffersValid(s) && s.output.r == r && s.output.w == w
    ensures |s.output.mem| == BUF_SIZE == s.output.capacity
    ensures at + len <= |s.output.mem| && s.output.mem[at + sent] == all[wire]
  {
  }

  /** Nor does it hold if appends take only the first branch from some moment on: after a shift
      that did no harm, data that fits behind the write index lands on bytes still to be sent. */
  lemma FirstBranchFails(a: Message, b: Message, c: Message, d: Message, spare: nat)
    requires a == Copies(3000, 1) && b == Copies(1095, 1) && c == Copies(2, 1) && d == Copies(2500, 2)
    ensures var s := Reached([Connect, Send(a, 0)] + [Send(b, 0), Transmit(a), Sent, Send(c, 0)]);
            && WireInv(s) && Unfinished(s) && s.output.Valid() && Fits(s.output, |d|)
            && !Safe(Step(s, Send(d, spare)))
  {
    var start := Reached([Connect, Send(a, 0)]);
    assert (a + b + c)[3000] == b[0] == 1 && forall k :: 0 <= k < |d| ==> d[k] == 2;
    hide *;
    FirstWrite(a, 0);
    ReachedAfter([Connect, Send(a, 0)], [Send(b, 0), Transmit(a), Sent, Send(c, 0)]);
    FourSteps(start, Send(b, 0), Transmit(a), Sent, Send(c, 0));
    ShiftedRun(start, a, b, c);
    LandsOnUnsent(After(start, [Send(b, 0), Transmit(a), Sent, Send(c, 0)]), a + b + c, d, spare);
  }

  lemma ReachedAfter(a: seq<Event>, b: seq<Event>)
    ensures Reached(a + b) == After(Reached(a), b)
  {
    AfterConcat(Init(), a, b);
    hide After;
  }

  /** The second message is launched at index 3000 and shifted away from there, to no harm. */
  lemma ShiftedRun(s: Conn, a: Message, b: Message, c: Message)
    requires At(s, 0, 3000, 0, 0, 3000, 0, a) && |a| == 3000 && |b| == 1095 && |c| == 2
    ensures At(Step(Step(Step(Step(s, Send(b, 0)), Transmit(a)), Sent), Send(c, 0)),
               3000, 1095, 0, 0, 1097, 3000, a + b + c)
  {
    hide At, Step;
    var s1 := Step(s, Send(b, 0));
    SendAt(s, 0, 3000, 0, 0, 3000, 0, a, b, 0);
    assert (a + b)[0..3000] == a;
    TransmitAt(s1, 0, 3000, 0, 4095, 0, a + b, a);
    SentAt(Step(s1, Transmit(a)), 0, 3000, 0, 4095, 3000, a + b);
    SendAt(Step(Step(s1, Transmit(a)), Sent), 3000, 1095, 0, 3000, 4095, 3000, a + b, c, 0);
  }

  lemma SendEnabled(s: Conn, data: Message, spare: nat)
    requires BuffersValid(s) && GrowthAllowed(s.output, |data|)
    ensures Enabled(s, Send(data, spare))
  {
  }

  lemma FittingByte(b: Buf, d: Message, at: nat)
    requires b.Valid() && Fits(b, |d|) && b.w <= at < b.w + |d|
    ensures at < |b.mem| && Landing(b, d, at) == d[at - b.w]
  {
  }

  lemma LandsOnUnsent(s: Conn, all: Message, d: Message, spare: nat)
    requires At(s, 3000, 1095, 0, 0, 1097, 3000, all) && |all| > 3000 && |d| == 2500
    requires d[1903] != all[3000]
    ensures WireInv(s) && Unfinished(s) && s.output.Valid() && Fits(s.output, |d|)
    ensures !Safe(Step(s, Send(d, spare)))
  {
    hide At, Inv, WireInv, Step, Safe, Enabled;
    AtFacts(s, 3000, 1095, 0, 0, 1097, 3000, all);
    assert Fits(s.output, 2500) && GrowthAllowed(s.output, 2500);
    SendEnabled(s, d, spare);
    FittingByte(s.output, d, 3000);
    hide Landing, GrowthAllowed;
    AppendSafeExactly(s, d, spare);
  }
}
