/** What a run's events amount to: every flag, count and stream of the client connection, told by
    the events that have happened alone. */
module ConnectionHistory {
  import opened Bytes
  import opened BufferModel
  import opened ConnectionModel

  /** How many of the events that can happen satisfy a condition on the state they meet. */
  ghost function Count(s: Conn, events: seq<Event>, which: (Conn, Event) -> bool): nat
    decreases |events|
  {
    if events == [] then 0
    else (if Enabled(s, events[0]) && which(s, events[0]) then 1 else 0) +
         Count(Step(s, events[0]), events[1..], which)
  }

  // ---------- Ends ----------

  predicate IsEnd(e: Event) { e.ReceiveFails? || e.SendFails? || e.Close? }

  ghost function Closings(s: Conn, events: seq<Event>): nat {
    Count(s, events, (u: Conn, e: Event) => e.Close?)
  }

  ghost function EndsIn(s: Conn, events: seq<Event>): nat {
    Count(s, events, (u: Conn, e: Event) => IsEnd(e))
  }

  ghost function EndsHeard(s: Conn, events: seq<Event>): nat {
    Count(s, events, (u: Conn, e: Event) => IsEnd(e) && u.callback)
  }

  /** Ends of file of which a callback is told. */
  ghost function EofsHeard(s: Conn, events: seq<Event>): nat {
    Count(s, events, (u: Conn, e: Event) => e == ReceiveFails(true) && u.callback)
  }

  ghost function ReadFailures(s: Conn, events: seq<Event>): nat {
    Count(s, events, (u: Conn, e: Event) => e.ReceiveFails?)
  }

  ghost function WriteFailures(s: Conn, events: seq<Event>): nat {
    Count(s, events, (u: Conn, e: Event) => e.SendFails?)
  }

  /** The callback is called at every end that finds one set and at nothing else; every end but an
      end of file told to a callback cancels the socket's operations. */
  lemma {:induction false} EndsAreCounted(s: Conn, events: seq<Event>)
    ensures var t := After(s, events);
            && t.endings.closes == s.endings.closes + Closings(s, events)
            && t.endings.notices == s.endings.notices + EndsHeard(s, events)
            && t.endings.silent == s.endings.silent + EndsIn(s, events) - EndsHeard(s, events)
            && t.endings.cancels == s.endings.cancels + EndsIn(s, events) - EofsHeard(s, events)
            && (t.readFailed <==> s.readFailed || ReadFailures(s, events) > 0)
            && (t.failed <==> s.failed || WriteFailures(s, events) > 0)
    decreases |events|
  {
    hide Step, Enabled;
    if events != [] {
      EndStep(s, events[0]);
      EndsAreCounted(Step(s, events[0]), events[1..]);
    }
  }

  function One(b: bool): nat { if b then 1 else 0 }

  lemma EndStep(s: Conn, e: Event)
    ensures var t, end := Step(s, e), Enabled(s, e) && IsEnd(e);
            && t.endings.closes == s.endings.closes + One(end && e.Close?)
            && t.endings.notices == s.endings.notices + One(end && s.callback)
            && t.endings.silent == s.endings.silent + One(end) - One(end && s.callback)
            && t.endings.cancels == s.endings.cancels + One(end) - One(end && e == ReceiveFails(true) && s.callback)
            && (t.readFailed <==> s.readFailed || (end && e.ReceiveFails?))
            && (t.failed <==> s.failed || (end && e.SendFails?))
  {
    Frames(s, e);
    hide Step, Append, RetrieveRead, Readable, GrowthAllowed;
  }

  // ---------- The link ----------

  /** Every end leaves the connection disconnected, and nothing else but coming up changes that. */
  lemma LinkStep(s: Conn, e: Event)
    requires Inv(s)
    ensures Enabled(s, e) && IsEnd(e) ==> Step(s, e).link == Disconnected
    ensures e == Connect ==> Step(s, e).link == Connected
    ensures !(Enabled(s, e) && IsEnd(e)) && e != Connect ==> Step(s, e).link == s.link
  {
    Frames(s, e);
    InvParts(s);
    hide Inv, Step, Append, RetrieveRead;
  }

  lemma {:induction false} StaysUp(s: Conn, events: seq<Event>)
    requires Inv(s) && s.link == Connected && Connect !in events
    ensures After(s, events).link == if EndsIn(s, events) == 0 then Connected else Disconnected
    decreases |events|
  {
    hide Step, Enabled, Inv;
    if events != [] {
      LinkStep(s, events[0]);
      StepKeepsInv(s, events[0]);
      if Step(s, events[0]).link == Connected {
        StaysUp(Step(s, events[0]), events[1..]);
      } else {
        StaysDown(Step(s, events[0]), events[1..]);
      }
    }
  }

  lemma {:induction false} StaysDown(s: Conn, events: seq<Event>)
    requires Inv(s) && s.link != Connected && Connect !in events
    ensures After(s, events).link == if EndsIn(s, events) == 0 then s.link else Disconnected
    decreases |events|
  {
    hide Step, Enabled, Inv;
    if events != [] {
      LinkStep(s, events[0]);
      StepKeepsInv(s, events[0]);
      StaysDown(Step(s, events[0]), events[1..]);
    }
  }

  /** In every run the connection is connected if and only if it has come up and not ended since. */
  lemma ConnectedExactly(before: seq<Event>, since: seq<Event>)
    requires Connect !in since
    ensures Reached(since).link != Connected
    ensures var up := Reached(before + [Connect]);
            && up.link == Connected
            && Reached(before + [Connect] + since).link ==
               (if EndsIn(up, since) == 0 then Connected else Disconnected)
  {
    ReachedInv(before);
    ReachedInv(before + [Connect]);
    ReachedInv([]);
    hide Step, Inv;
    LinkStep(Reached(before), Connect);
    AfterConcat(Init(), before, [Connect]);
    OneStep(Reached(before), Connect);
    AfterConcat(Init(), before + [Connect], since);
    StaysUp(Reached(before + [Connect]), since);
    StaysDown(Init(), since);
  }

  // ---------- Reading ----------

  /** receiving_ is set by startReceive and stays set. */
  lemma {:induction false} ReceivingExactly(s: Conn, events: seq<Event>)
    requires Inv(s)
    ensures After(s, events).receiving <==> s.receiving || StartReceive in events
    decreases |events|
  {
    hide Step, Inv;
    if events != [] {
      StepKeepsInv(s, events[0]);
      ReceivingStep(s, events[0]);
      assert StartReceive in events <==> events[0] == StartReceive || StartReceive in events[1..];
      ReceivingExactly(Step(s, events[0]), events[1..]);
    }
  }

  lemma StartReceiveStep(s: Conn)
    requires BuffersValid(s)
    ensures Step(s, StartReceive).postedReads == s.postedReads + (if s.receiving then 0 else 1)
  {
  }

  lemma ReceivingStep(s: Conn, e: Event)
    requires Inv(s)
    ensures Step(s, e).receiving <==> s.receiving || e == StartReceive
    ensures !s.receiving && e == StartReceive ==> Step(s, e).postedReads == 1
  {
    Frames(s, e);
    InvParts(s);
    assert !s.receiving ==> s.postedReads == 0;
    if e == StartReceive {
      StartReceiveStep(s);
    }
    hide Inv, Step, Append, RetrieveRead;
  }

  /** A posted read waits until it runs, and then it is outstanding or has ended. */
  lemma {:induction false} PostedReadRunsOnce(s: Conn, events: seq<Event>)
    requires Inv(s) && s.receiving && s.postedReads <= 1
    ensures After(s, events).postedReads == if RunReceive in events then 0 else s.postedReads
    decreases |events|
  {
    hide Step, Inv;
    if events != [] {
      StepKeepsInv(s, events[0]);
      PostedStep(s, events[0]);
      assert RunReceive in events <==> events[0] == RunReceive || RunReceive in events[1..];
      PostedReadRunsOnce(Step(s, events[0]), events[1..]);
    }
  }

  lemma PostedStep(s: Conn, e: Event)
    requires Inv(s) && s.receiving && s.postedReads <= 1
    ensures Step(s, e).receiving
    ensures Step(s, e).postedReads == if e == RunReceive then 0 else s.postedReads
  {
    Frames(s, e);
    if e == StartReceive {
      StartReceiveStep(s);
    }
    InvParts(s);
    hide Inv, Step, Append, RetrieveRead;
  }

  /** From the moment a started read has run until a read fails one read is outstanding, in every
      run and after every reception: the connection never stops reading by itself. */
  lemma ReadingGoesOn(before: seq<Event>, since: seq<Event>)
    requires StartReceive in before && RunReceive in since
    ensures var s := Reached(before + since); s.receiving && (s.readFailed || |s.readOps| == 1)
  {
    ReachedInv(before);
    ReachedInv(before + since);
    InitInv();
    AfterConcat(Init(), before, since);
    ReceivingExactly(Init(), before);
    assert Reached(before).receiving && Reached(before).postedReads <= 1;
    hide Step, Inv;
    ReceivingExactly(Reached(before), since);
    PostedReadRunsOnce(Reached(before), since);
    Scheduling(before + since);
  }

  // ---------- The close callback ----------

  /** The close callback is the one given last. */
  lemma CallbackIsLastGiven(s: Conn, before: seq<Event>, given: bool, since: seq<Event>)
    requires Inv(s) && forall e :: e in since ==> !e.SetCloseCallback?
    ensures After(s, since).callback == s.callback
    ensures After(s, before + [SetCloseCallback(given)] + since).callback == given
  {
    RunKeepsInv(s, before);
    var u := After(s, before);
    var e := SetCloseCallback(given);
    AfterConcat(s, before + [e], since);
    AfterConcat(s, before, [e]);
    OneStep(u, e);
    hide Inv, Step, After;
    StepKeepsInv(u, e);
    CallbackStepExactly(u, e);
    CallbackStays(s, since);
    CallbackStays(Step(u, e), since);
  }

  lemma {:induction false} CallbackStays(s: Conn, events: seq<Event>)
    requires Inv(s) && forall e :: e in events ==> !e.SetCloseCallback?
    ensures After(s, events).callback == s.callback
    decreases |events|
  {
    hide Step, Inv;
    if events != [] {
      assert events[0] in events && forall e :: e in events[1..] ==> e in events;
      StepKeepsInv(s, events[0]);
      CallbackStepExactly(s, events[0]);
      CallbackStays(Step(s, events[0]), events[1..]);
    }
  }

  lemma CallbackStepExactly(s: Conn, e: Event)
    requires Inv(s)
    ensures Step(s, e).callback == if e.SetCloseCallback? then e.given else s.callback
  {
    Frames(s, e);
    InvParts(s);
    hide Inv, Step, Append, RetrieveRead;
  }

  // ---------- Streams ----------

  function ReceivedBy(s: Conn, e: Event): Message { if e.Received? then e.data else [] }

  function SubmittedBy(s: Conn, e: Event): Message { if e.Send? then e.data else [] }

  function TransmittedBy(s: Conn, e: Event): Message { if e.Transmit? then e.bytes else [] }

  /** What the events that can happen contribute to a stream. */
  ghost function Gathered(s: Conn, events: seq<Event>, part: (Conn, Event) -> Message): Message
    decreases |events|
  {
    if events == [] then []
    else (if Enabled(s, events[0]) then part(s, events[0]) else []) +
         Gathered(Step(s, events[0]), events[1..], part)
  }

  /** The three streams are what has been received, submitted and transmitted, nothing else. */
  lemma {:induction false} StreamsAreOfEvents(s: Conn, events: seq<Event>)
    ensures After(s, events).received == s.received + Gathered(s, events, ReceivedBy)
    ensures After(s, events).submitted == s.submitted + Gathered(s, events, SubmittedBy)
    ensures After(s, events).wire == s.wire + Gathered(s, events, TransmittedBy)
    decreases |events|
  {
    hide Step, Enabled;
    if events != [] {
      StreamStep(s, events[0]);
      StreamsAreOfEvents(Step(s, events[0]), events[1..]);
    }
  }

  lemma StreamStep(s: Conn, e: Event)
    ensures Step(s, e).received == s.received + (if Enabled(s, e) then ReceivedBy(s, e) else [])
    ensures Step(s, e).submitted == s.submitted + (if Enabled(s, e) then SubmittedBy(s, e) else [])
    ensures Step(s, e).wire == s.wire + (if Enabled(s, e) then TransmittedBy(s, e) else [])
  {
    Frames(s, e);
    hide Step, Append, RetrieveRead;
    if Enabled(s, e) {
      match e
      case Connect =>
      case SetCloseCallback(_) =>
      case StartReceive =>
      case RunReceive =>
      case Received(_, _, _) =>
      case Send(_, _) =>
      case Transmit(_) =>
      case Sent =>
      case ReceiveFails(_) =>
      case SendFails =>
      case Close =>
    }
  }

  // ---------- The output buffer ----------

  /** How many bytes completions have taken out of the output buffer. */
  ghost function Completed(s: Conn, events: seq<Event>): nat
    decreases |events|
  {
    if events == [] then 0
    else CompletedNow(s, events[0]) + Completed(Step(s, events[0]), events[1..])
  }

  /** In every continuation the output buffer holds what it held, followed by what was submitted,
      less what completed writes have taken from the front: ends and failures leave it alone. */
  lemma {:induction false} OutputIsQueue(s: Conn, events: seq<Event>)
    requires Inv(s)
    ensures s.output.Valid() && After(s, events).output.Valid()
    ensures var all := s.output.Live() + Gathered(s, events, SubmittedBy);
            Completed(s, events) <= |all| && After(s, events).output.Live() == all[Completed(s, events)..]
    decreases |events|
  {
    InvParts(s);
    hide Step, Enabled, Inv, SubmittedBy;
    if events != [] {
      var t := Step(s, events[0]);
      StepKeepsInv(s, events[0]);
      OutputStep(s, events[0]);
      OutputIsQueue(t, events[1..]);
      FirstPart(s, events);
      hide Gathered, Completed, After;
      QueueSteps(s.output.Live(), SubmittedNow(s, events[0]), CompletedNow(s, events[0]),
                 Gathered(t, events[1..], SubmittedBy), Completed(t, events[1..]));
    }
  }

  ghost function SubmittedNow(s: Conn, e: Event): Message {
    if Enabled(s, e) then SubmittedBy(s, e) else []
  }

  ghost function CompletedNow(s: Conn, e: Event): nat {
    if e.Sent? && Enabled(s, e) then s.writeOps[0].Len() else 0
  }

  lemma FirstPart(s: Conn, events: seq<Event>)
    requires events != []
    ensures var t := Step(s, events[0]);
            && After(s, events) == After(t, events[1..])
            && Gathered(s, events, SubmittedBy) ==
               SubmittedNow(s, events[0]) + Gathered(t, events[1..], SubmittedBy)
            && Completed(s, events) == CompletedNow(s, events[0]) + Completed(t, events[1..])
  {
    hide Step, Enabled, SubmittedBy;
  }

  lemma OutputStep(s: Conn, e: Event)
    requires Inv(s)
    ensures s.output.Valid() && Step(s, e).output.Valid()
    ensures var all, taken := s.output.Live() + SubmittedNow(s, e), CompletedNow(s, e);
            taken <= |s.output.Live()| && Step(s, e).output.Live() == all[taken..]
  {
    InvParts(s);
    Frames(s, e);
    hide Inv, Step;
    if Enabled(s, e) && e.Send? {
      AppendConcatenates(s.output, e.data, e.spare);
      hide Append, GrowthAllowed;
    } else if Enabled(s, e) && e.Sent? {
      OneWrite(s);
      RetrievedLive(s.output, s.writeOps[0].Len());
      hide RetrieveRead;
    } else {
      hide Append, RetrieveRead;
      assert Step(s, e).output == s.output;
      hide Enabled;
    }
  }

  lemma QueueSteps(live: Message, data: Message, taken: nat, more: Message, later: nat)
    requires taken <= |live| && later <= |(live + data)[taken..] + more|
    ensures taken + later <= |live + (data + more)|
    ensures ((live + data)[taken..] + more)[later..] == (live + (data + more))[taken + later..]
  {
    Reassociate(live, data, more);
    TailOfSum(live + data, more, taken);
  }

  // ---------- Writes ----------

  /** A write is started by a send that finds the connection up and none under way, and by a
      completion that leaves bytes on a connection that is up, by nothing else; and always for
      everything the output buffer then holds. */
  lemma WritesStartExactly(s: Conn, e: Event)
    requires Inv(s) && Enabled(s, e)
    ensures var t := Step(s, e);
            && t.output.Valid()
            && t.writeOps ==
               if (e.Send? && !s.sending && s.link == Connected) ||
                  (e.Sent? && s.link == Connected && t.output.r < t.output.w)
               then [WriteOp(t.output.generation, t.output.r, 0, t.output.Live())]
               else if e.Sent? || e.SendFails? then []
               else if e.Transmit? then [s.writeOps[0].(sent := s.writeOps[0].sent + |e.bytes|)]
               else s.writeOps
  {
    StepKeepsInv(s, e);
    InvParts(Step(s, e));
    OneWrite(s);
    Frames(s, e);
    hide Inv, Append, RetrieveRead;
    match e
    case Connect => hide Step;
    case SetCloseCallback(_) => hide Step;
    case StartReceive => hide Step;
    case RunReceive => hide Step;
    case Received(_, _, _) => hide Step;
    case Send(data, spare) =>
      SendStarts(s, data, spare);
      hide SendStep, GrowthAllowed;
    case Transmit(_) =>
    case Sent =>
      SentStarts(s);
      hide SentStep;
    case ReceiveFails(_) => hide Step;
    case SendFails => hide Step;
    case Close => hide Step;
  }

  lemma SendStarts(s: Conn, data: Message, spare: nat)
    requires s.output.Valid() && (s.writeOps != [] ==> s.sending)
    ensures var t := SendStep(s, data, spare);
            && t.output.Valid()
            && t.writeOps ==
               if !s.sending && s.link == Connected
               then [WriteOp(t.output.generation, t.output.r, 0, t.output.Live())] else s.writeOps
  {
    hide Append;
  }

  lemma SentStarts(s: Conn)
    requires s.output.Valid() && |s.writeOps| == 1
    ensures var t := SentStep(s);
            && t.output.Valid()
            && t.writeOps ==
               if s.link == Connected && t.output.r < t.output.w
               then [WriteOp(t.output.generation, t.output.r, 0, t.output.Live())] else []
  {
    hide RetrieveRead;
  }

  lemma OneWrite(s: Conn)
    requires Inv(s)
    ensures BuffersValid(s) && |s.writeOps| <= 1 && (s.writeOps != [] ==> s.sending)
    ensures s.writeOps == [] || s.writeOps == [s.writeOps[0]]
    ensures s.writeOps != [] ==> s.writeOps[0].Len() <= |s.output.Live()|
  {
    hide InputInOrder, IdleLaw, CloseLaw, SnapshotLaw, ReadSchedule;
  }

  // ---------- What is remembered of coming up ----------

  ghost function SendsIn(s: Conn, events: seq<Event>): nat {
    Count(s, events, (u: Conn, e: Event) => e.Send?)
  }

  /** The two flags of the idle law mean what they say: on coming up nothing has been sent, and bytes
      are stranded exactly if there are some and no write is under way; while the connection stays
      up only sends change that. */
  lemma UpMeans(s: Conn, events: seq<Event>)
    requires Inv(s) && s.link != Connected
    ensures s.output.Valid()
    ensures var up := Step(s, Connect);
            && up.link == Connected && !up.sentSinceUp
            && (up.strandedAtUp <==> !s.sending && s.output.Live() != [])
            && (EndsIn(up, events) == 0 ==>
                  && (After(up, events).sentSinceUp <==> SendsIn(up, events) > 0)
                  && After(up, events).strandedAtUp == up.strandedAtUp)
  {
    var up := Step(s, Connect);
    InvParts(s);
    StepKeepsInv(s, Connect);
    hide Inv, After;
    if EndsIn(up, events) == 0 {
      UpStays(up, events);
    }
  }

  lemma {:induction false} UpStays(s: Conn, events: seq<Event>)
    requires Inv(s) && s.link == Connected && EndsIn(s, events) == 0
    ensures After(s, events).sentSinceUp <==> s.sentSinceUp || SendsIn(s, events) > 0
    ensures After(s, events).strandedAtUp == s.strandedAtUp
    decreases |events|
  {
    hide Step, Enabled, Inv;
    if events != [] {
      StepKeepsInv(s, events[0]);
      UpStep(s, events[0]);
      UpStays(Step(s, events[0]), events[1..]);
    }
  }

  lemma UpStep(s: Conn, e: Event)
    requires Inv(s) && s.link == Connected
    ensures (Enabled(s, e) && IsEnd(e)) || Step(s, e).link == Connected
    ensures Step(s, e).sentSinceUp <==> s.sentSinceUp || (Enabled(s, e) && e.Send?)
    ensures Step(s, e).strandedAtUp == s.strandedAtUp
  {
    Frames(s, e);
    InvParts(s);
    hide Inv, Append, RetrieveRead;
    if e != Connect {
      hide Step;
    }
  }
}
