/** The server session as a step system over its completion handlers, for every interleaving
    and every chunking of the incoming stream, and what holds in all of its runs. */
module SessionModel {
  import opened Bytes
  import opened Framing
  import opened Codec

  /** READ_BUFFER_SIZE */
  const CAPACITY: nat := 4096

  /** "Echo: " */
  const ECHO_PREFIX: Message := [69, 99, 104, 111, 58, 32]

  function Echo(m: Message): Message { ECHO_PREFIX + m }

  function Responses(ms: seq<Message>): (r: seq<Message>)
    ensures |r| == |ms|
  {
    seq(|ms|, i requires 0 <= i < |ms| => Echo(ms[i]))
  }

  /** `residual` is the filled part of the read buffer, `posted` the responses whose `safe_write`
      task has not run, `writing` the buffers of all outstanding writes. The last three fields are
      history: chunks received, messages delivered to the handler, bytes accepted by the peer. */
  datatype State = State(
    proto: Protocol, residual: Message, posted: seq<Message>, queue: seq<Message>,
    writing: seq<Message>, reading: bool, open: bool, faulted: bool,
    chunks: seq<Message>, delivered: seq<Message>, wire: Message)

  datatype Event =
    | Read(chunk: Message)
    | ReadEnds
    | RunPosted
    | WriteDone
    | WriteFails(sent: nat)

  function Init(p: Protocol): State {
    State(p, [], [], [], [], true, true, false, [], [], [])
  }

  /** What the environment may do: a read brings at most what fits, a successful write moves the
      whole buffer, a failed one some prefix of it, and a closed socket moves nothing. */
  predicate Enabled(s: State, e: Event) {
    && !s.faulted
    && match e
       case Read(chunk) => s.reading && |s.residual| + |chunk| <= CAPACITY
       case ReadEnds => s.reading
       case RunPosted => s.posted != []
       case WriteDone => s.writing != [] && s.open
       case WriteFails(sent) => s.writing != [] && sent <= |s.writing[0]| && (s.open || sent == 0)
  }

  function StartWriting(s: State): State
    requires s.queue != []
  {
    s.(writing := s.writing + [s.queue[0]])
  }

  function ReadStep(s: State, chunk: Message): State {
    var bytes, history := s.residual + chunk, s.chunks + [chunk];
    match Process(s.proto, bytes)
    case Overrun => s.(residual := bytes, chunks := history, faulted := true)
    case Done(ms, n) =>
      s.(residual := bytes[n..], chunks := history,
         delivered := s.delivered + ms, posted := s.posted + Responses(ms))
  }

  function PostedStep(s: State): State
    requires s.posted != []
  {
    if !Encodable(s.proto, s.posted[0]) then s.(faulted := true)
    else
      var t := s.(posted := s.posted[1..], queue := s.queue + [Encode(s.proto, s.posted[0])]);
      if s.queue == [] then StartWriting(t) else t
  }

  function WrittenStep(s: State): State
    requires s.writing != []
  {
    var t := s.(wire := s.wire + s.writing[0], writing := s.writing[1..],
                queue := if s.queue == [] then [] else s.queue[1..]);
    if t.queue != [] then StartWriting(t) else t
  }

  function WriteFailedStep(s: State, sent: nat): State
    requires s.writing != [] && sent <= |s.writing[0]|
  {
    s.(wire := s.wire + s.writing[0][..sent], writing := s.writing[1..], queue := [], open := false)
  }

  /** An event that is not enabled cannot happen; it leaves the state alone. */
  function Step(s: State, e: Event): State {
    if !Enabled(s, e) then s
    else
      match e
      case Read(chunk) => ReadStep(s, chunk)
      case ReadEnds => s.(reading := false)
      case RunPosted => PostedStep(s)
      case WriteDone => WrittenStep(s)
      case WriteFails(sent) => WriteFailedStep(s, sent)
  }

  function After(s: State, events: seq<Event>): State
    decreases |events|
  {
    if events == [] then s else After(Step(s, events[0]), events[1..])
  }

  // ---------- What a run's events amount to ----------

  /** How many of the events that can happen satisfy a condition. */
  ghost function Occurrences(s: State, events: seq<Event>, which: Event -> bool): nat
    decreases |events|
  {
    if events == [] then 0
    else (if Enabled(s, events[0]) && which(events[0]) then 1 else 0) +
         Occurrences(Step(s, events[0]), events[1..], which)
  }

  function ChunkOf(s: State, e: Event): seq<Message> {
    if e.Read? && Enabled(s, e) then [e.chunk] else []
  }

  /** What the socket takes of the outstanding write. */
  function TakenBy(s: State, e: Event): Message {
    if !Enabled(s, e) then []
    else match e
         case WriteDone => s.writing[0]
         case WriteFails(sent) => s.writing[0][..sent]
         case _ => []
  }

  function ChunksOf(s: State, events: seq<Event>): seq<Message>
    decreases |events|
  {
    if events == [] then [] else ChunkOf(s, events[0]) + ChunksOf(Step(s, events[0]), events[1..])
  }

  function TakenIn(s: State, events: seq<Event>): Message
    decreases |events|
  {
    if events == [] then [] else TakenBy(s, events[0]) + TakenIn(Step(s, events[0]), events[1..])
  }

  /** Every chunk of a read that can happen is received, and every byte the socket takes is on the
      wire, in order and nothing else. */
  lemma {:induction false} HistoryIsOfEvents(s: State, events: seq<Event>)
    ensures After(s, events).chunks == s.chunks + ChunksOf(s, events)
    ensures After(s, events).wire == s.wire + TakenIn(s, events)
    decreases |events|
  {
    if events != [] {
      StepHistory(s, events[0]);
      hide Step, ChunkOf, TakenBy;
      HistoryIsOfEvents(Step(s, events[0]), events[1..]);
    }
  }

  lemma StepHistory(s: State, e: Event)
    ensures Step(s, e).chunks == s.chunks + ChunkOf(s, e)
    ensures Step(s, e).wire == s.wire + TakenBy(s, e)
  {
    hide Process, Encode;
  }

  lemma {:induction false} FaultedStays(s: State, events: seq<Event>)
    requires s.faulted
    ensures After(s, events) == s
    decreases |events|
  {
    if events != [] {
      FaultedStays(s, events[1..]);
    }
  }

  /** Reading goes on after every read, whatever it brought, until it ends. */
  lemma {:induction false} ReadingGoesOn(s: State, events: seq<Event>)
    ensures !After(s, events).faulted ==>
              (After(s, events).reading <==> s.reading && ReadEnds !in events)
    decreases |events|
  {
    if events != [] {
      var t := Step(s, events[0]);
      if s.faulted {
        FaultedStays(s, events);
      } else {
        ReadingStep(s, events[0]);
        assert ReadEnds in events <==> events[0] == ReadEnds || ReadEnds in events[1..];
        hide Step;
        ReadingGoesOn(t, events[1..]);
      }
    }
  }

  lemma ReadingStep(s: State, e: Event)
    requires !s.faulted
    ensures Step(s, e).reading <==> s.reading && e != ReadEnds
  {
    hide Process, Encode;
  }

  /** So in every state of an unfaulted session whose reading has not ended a chunk is accepted if
      and only if it fits. */
  lemma ChunksThatFitAreRead(p: Protocol, events: seq<Event>, chunk: Message)
    requires !Reached(p, events).faulted
    ensures var s := Reached(p, events);
            && (Enabled(s, Read(chunk)) <==>
                ReadEnds !in events && |s.residual| + |chunk| <= CAPACITY)
            && (Enabled(s, Read(chunk)) ==> Received(Step(s, Read(chunk))) == Received(s) + chunk)
  {
    var s := Reached(p, events);
    ReadingGoesOn(Init(p), events);
    StepHistory(s, Read(chunk));
    hide Step, Flatten;
    FlattenSnoc(s.chunks, chunk);
  }

  /** The socket stays open, through the end of reading too, exactly as long as no write fails. */
  lemma {:induction false} OpenExactly(s: State, events: seq<Event>)
    ensures After(s, events).open <==> s.open && Occurrences(s, events, (e: Event) => e.WriteFails?) == 0
    decreases |events|
  {
    if events != [] {
      OpenStep(s, events[0]);
      hide Step, Enabled;
      OpenExactly(Step(s, events[0]), events[1..]);
    }
  }

  lemma OpenStep(s: State, e: Event)
    ensures Step(s, e).open <==> s.open && !(Enabled(s, e) && e.WriteFails?)
  {
    hide Process, Encode;
  }

  // ---------- How far delivery lags behind the stream ----------

  /** Complete frames in everything the chunks brought. */
  function Complete(p: Protocol, chunks: seq<Message>): nat { |Parse(p, Flatten(chunks))| }

  /** Frames delivered when each read delivers at most one. */
  function Lag(p: Protocol, chunks: seq<Message>): nat
    decreases |chunks|
  {
    if chunks == [] then 0
    else Min(Complete(p, chunks), Lag(p, chunks[..|chunks| - 1]) + 1)
  }

  predicate AttainedAt(p: Protocol, chunks: seq<Message>, k: nat) {
    k <= |chunks| && Lag(p, chunks) == Complete(p, chunks[..k]) + |chunks| - k
  }

  /** The lag in closed form: the minimum, over every k, of the frames complete after k reads
      plus one for each later read. */
  lemma {:induction false} LagIsMinimum(p: Protocol, chunks: seq<Message>)
    ensures forall k :: 0 <= k <= |chunks| ==> Lag(p, chunks) <= Complete(p, chunks[..k]) + |chunks| - k
    ensures exists k: nat :: AttainedAt(p, chunks, k)
    decreases |chunks|
  {
    hide Complete;
    var n := |chunks|;
    if n == 0 {
      NothingComplete(p);
      assert chunks[..0] == [];
      assert AttainedAt(p, chunks, 0);
    } else {
      var before := chunks[..n - 1];
      LagIsMinimum(p, before);
      assert chunks[..n] == chunks;
      assert forall k :: 0 <= k < n ==> before[..k] == chunks[..k];
      if Lag(p, chunks) == Complete(p, chunks) {
        assert AttainedAt(p, chunks, n);
      } else {
        var k: nat :| AttainedAt(p, before, k);
        assert AttainedAt(p, chunks, k);
      }
    }
  }

  lemma NothingComplete(p: Protocol)
    ensures Complete(p, []) == 0
  {
  }

  // ---------- What fits the read buffer ----------

  /** How many bytes of a stream its leading frames take, up to the first one that is larger than
      the read buffer. */
  function Fitting(p: Protocol, s: Message): (n: nat)
    ensures n <= |s|
    decreases |s|
  {
    match FrontOf(p, s)
    case Partial => 0
    case Frame(_, size) => if size <= CAPACITY then size + Fitting(p, s[size..]) else 0
  }

  lemma FittingUnfold(p: Protocol, s: Message)
    ensures var f := FrontOf(p, s);
            Fitting(p, s) ==
            if f.Frame? && f.size <= CAPACITY then f.size + Fitting(p, s[f.size..]) else 0
  {
  }

  lemma {:induction false} FittingConcat(p: Protocol, a: Message, b: Message)
    requires Fitting(p, a) == |a|
    ensures Fitting(p, a + b) == |a| + Fitting(p, b)
    decreases |a|
  {
    hide FrontOf, Fitting;
    if a == [] {
      assert a + b == b;
    } else {
      FittingUnfold(p, a);
      FittingUnfold(p, a + b);
      FrontIsStable(p, a, b);
      var size := FrontOf(p, a).size;
      assert (a + b)[size..] == a[size..] + b;
      FittingConcat(p, a[size..], b);
    }
  }

  /** What a parse takes of at most a buffer full consists of frames that fit. */
  lemma {:induction false} ParsedFits(p: Protocol, s: Message)
    requires |s| <= CAPACITY
    ensures |Rest(p, s)| <= |s|
    ensures Fitting(p, s[..|s| - |Rest(p, s)|]) == |s| - |Rest(p, s)|
    decreases |s|
  {
    hide FrontOf, Fitting, Rest;
    RestIsPartial(p, s);
    var n := |s| - |Rest(p, s)|;
    if FrontOf(p, s).Frame? {
      var size := FrontOf(p, s).size;
      ParseUnfold(p, s);
      ParsedFits(p, s[size..]);
      FrameFits(p, s);
      FittingConcat(p, s[..size], s[size..][..n - size]);
      assert s[..n] == s[..size] + s[size..][..n - size];
    } else {
      NoFrameRest(p, s);
      FittingUnfold(p, s[..0]);
    }
  }

  lemma NoFrameRest(p: Protocol, s: Message)
    requires FrontOf(p, s).Partial?
    ensures Rest(p, s) == s && FrontOf(p, []).Partial?
  {
  }

  lemma FrameFits(p: Protocol, s: Message)
    requires FrontOf(p, s).Frame? && |s| <= CAPACITY
    ensures Fitting(p, s[..FrontOf(p, s).size]) == FrontOf(p, s).size
  {
  }

  lemma ConsumedFits(p: Protocol, s: Message)
    requires |s| <= CAPACITY && Process(p, s).Done?
    ensures var n := Process(p, s).consumed; Fitting(p, s[..n]) == n
  {
    if p.Line? {
      ParsedFits(p, s);
    } else {
      ProcessTakesFront(p, s);
      if FrontOf(p, s).Frame? {
        FrameFits(p, s);
      }
    }
  }

  /** The index of the first message whose encoding is larger than the read buffer, or |ms|. */
  function FirstOversized(p: Protocol, ms: seq<Message>): (k: nat)
    ensures k <= |ms|
    ensures forall i :: 0 <= i < k ==> |Encode(p, ms[i])| <= CAPACITY
    ensures k < |ms| ==> |Encode(p, ms[k])| > CAPACITY
  {
    if ms == [] || |Encode(p, ms[0])| > CAPACITY then 0 else 1 + FirstOversized(p, ms[1..])
  }

  /** An encoded message that has come in only in part shows no frame. */
  lemma FrontOfPart(p: Protocol, m: Message, rest: Message, s: Message)
    requires Carries(p, m) && s <= Encode(p, m) + rest
    ensures FrontOf(p, s) ==
            if |Encode(p, m)| <= |s| then Frame(Canonical(p, m), |Encode(p, m)|) else Partial
  {
    hide FrontOf, Encode, Canonical, Carries;
    var first, missing := Encode(p, m), (Encode(p, m) + rest)[|s|..];
    EncodeThenFront(p, m, rest);
    assert s + missing == first + rest;
    if |first| <= |s| {
      EncodeThenFront(p, m, s[|first|..]);
      assert s == first + s[|first|..];
    } else if FrontOf(p, s).Frame? {
      FrontIsStable(p, s, missing);
    }
  }

  /** The fitting frames in the first bytes of an encoded message list. */
  lemma {:induction false} FittingOfEncodings(p: Protocol, s: Message, ms: seq<Message>)
    requires (forall m :: m in ms ==> Carries(p, m)) && s <= EncodeAll(p, ms)
    ensures var before := |EncodeAll(p, ms[..FirstOversized(p, ms)])|;
            if before <= |s| then Fitting(p, s) == before else |s| < Fitting(p, s) + CAPACITY
  {
    hide FrontOf, Encode, Fitting;
    FittingUnfold(p, s);
    if ms == [] {
      assert ms[..0] == [];
    } else {
      var first, rest, k := Encode(p, ms[0]), EncodeAll(p, ms[1..]), FirstOversized(p, ms);
      assert EncodeAll(p, ms) == first + rest;
      FrontOfPart(p, ms[0], rest, s);
      if k > 0 {
        assert ms[..k][0] == ms[0] && ms[..k][1..] == ms[1..][..k - 1];
        assert EncodeAll(p, ms[..k]) == first + EncodeAll(p, ms[1..][..k - 1]);
        if |first| <= |s| {
          FittingOfEncodings(p, s[|first|..], ms[1..]);
        }
      } else {
        assert ms[..0] == [];
      }
    }
  }

  // ---------- Invariants ----------

  function Received(s: State): Message { Flatten(s.chunks) }

  /** The smallest frame of a format: chunks no longer than this bring at most one frame. */
  function SmallestFrame(p: Protocol): nat {
    match p case Line => 1 case Fixed(n) => n case Binary => 4
  }

  ghost predicate ReadInv(s: State) {
    && |s.residual| <= CAPACITY
    && s.delivered + Parse(s.proto, s.residual) == Parse(s.proto, Received(s))
    && Rest(s.proto, s.residual) == Rest(s.proto, Received(s))
    && (s.proto.Line? ==> Parse(s.proto, s.residual) == [])
    && (!s.proto.Line? ==> |s.delivered| == Lag(s.proto, s.chunks))
    && (|s.residual| == CAPACITY ==> Parse(s.proto, s.residual) == [])
  }

  /** What has left the read buffer through the handler. */
  function Consumed(s: State): Message
    requires |s.residual| <= |Received(s)|
  {
    Received(s)[..|Received(s)| - |s.residual|]
  }

  ghost predicate FitInv(s: State) {
    && |s.residual| <= CAPACITY && |s.residual| <= |Received(s)|
    && Received(s) == Consumed(s) + s.residual
    && Fitting(s.proto, Consumed(s)) == |Consumed(s)|
  }

  ghost predicate SmallChunkInv(s: State) {
    !s.proto.Line? && (forall c :: c in s.chunks ==> |c| <= SmallestFrame(s.proto))
    ==> Parse(s.proto, s.residual) == []
  }

  ghost predicate SizeInv(s: State) {
    && (forall m :: m in s.delivered ==> |m| <= CAPACITY)
    && (forall m :: m in s.posted ==> |m| <= CAPACITY + 6)
    && (s.faulted ==> s.proto.Binary? && 4 <= |s.residual| && TWO_32 - 4 <= Declared(s.residual))
  }

  /** Exactly one write is outstanding when the queue is non-empty, and it is for its front. */
  predicate WriteInv(s: State) {
    s.writing == if s.queue == [] then [] else [s.queue[0]]
  }

  /** The encoded echoes of everything delivered so far. */
  function Expected(s: State): Message { EncodeAll(s.proto, Responses(s.delivered)) }

  predicate WireInv(s: State) {
    if s.open then s.wire + Flatten(s.queue) + EncodeAll(s.proto, s.posted) == Expected(s)
    else s.wire <= Expected(s)
  }

  ghost predicate Inv(s: State) {
    ReadInv(s) && FitInv(s) && SmallChunkInv(s) && SizeInv(s) && WriteInv(s) && WireInv(s)
  }

  lemma InitInv(p: Protocol)
    ensures Inv(Init(p))
  {
    NothingToParse(p);
    NothingFits(p);
    hide Parse, Rest, FrontOf, Fitting;
  }

  lemma ReadKeepsReadInv(s: State, chunk: Message)
    requires ReadInv(s) && |s.residual| + |chunk| <= CAPACITY
    ensures ReadInv(ReadStep(s, chunk))
  {
    var p, bytes, t := s.proto, s.residual + chunk, ReadStep(s, chunk);
    var received := Received(s);
    hide FrontOf, Process, Parse, Rest, Flatten;
    FlattenSnoc(s.chunks, chunk);
    assert Received(t) == received + chunk;
    assert t.chunks[..|t.chunks| - 1] == s.chunks;
    ParseSplit(p, received, chunk);
    ParseSplit(p, s.residual, chunk);
    assert Parse(p, received + chunk) == s.delivered + Parse(p, bytes);
    match Process(p, bytes)
    case Overrun =>
      OverrunHoldsNoFrame(p, bytes);
    case Done(ms, n) =>
      ProcessAgrees(p, bytes);
      assert s.delivered + (ms + Parse(p, bytes[n..])) == t.delivered + Parse(p, bytes[n..]);
      assert bytes[0..] == bytes;
  }

  lemma ReadKeepsFitInv(s: State, chunk: Message)
    requires FitInv(s) && |s.residual| + |chunk| <= CAPACITY
    ensures FitInv(ReadStep(s, chunk))
  {
    var p, bytes := s.proto, s.residual + chunk;
    hide FrontOf, Process, Flatten, Fitting;
    FlattenSnoc(s.chunks, chunk);
    match Process(p, bytes)
    case Overrun =>
      assert bytes[..0] == [] && bytes[0..] == bytes;
      NothingFits(p);
      FitsFurther(p, Consumed(s), s.residual, chunk, 0);
    case Done(_, n) =>
      ConsumedFits(p, bytes);
      FitsFurther(p, Consumed(s), s.residual, chunk, n);
  }

  lemma NothingFits(p: Protocol)
    ensures Fitting(p, []) == 0
  {
  }

  lemma FitsFurther(p: Protocol, consumed: Message, residual: Message, chunk: Message, n: nat)
    requires Fitting(p, consumed) == |consumed|
    requires n <= |residual + chunk| && Fitting(p, (residual + chunk)[..n]) == n
    ensures var all, rest := (consumed + residual) + chunk, (residual + chunk)[n..];
            var front := all[..|all| - |rest|];
            all == front + rest && Fitting(p, front) == |front|
  {
    hide Fitting;
    var bytes := residual + chunk;
    FittingConcat(p, consumed, bytes[..n]);
    Reassociate(consumed, residual, chunk);
    assert consumed + bytes == (consumed + bytes[..n]) + bytes[n..];
    assert (consumed + bytes)[..|consumed| + n] == consumed + bytes[..n];
  }

  lemma OverrunHoldsNoFrame(p: Protocol, s: Message)
    requires Process(p, s).Overrun?
    ensures Parse(p, s) == []
  {
  }

  lemma ReadKeepsSmallChunkInv(s: State, chunk: Message)
    requires ReadInv(s) && SmallChunkInv(s) && |s.residual| + |chunk| <= CAPACITY
    ensures SmallChunkInv(ReadStep(s, chunk))
  {
    var p, bytes, t := s.proto, s.residual + chunk, ReadStep(s, chunk);
    if !p.Line? && forall c :: c in t.chunks ==> |c| <= SmallestFrame(p) {
      assert chunk == t.chunks[|s.chunks|];
      assert forall c :: c in s.chunks ==> c in t.chunks;
      assert FrontOf(p, s.residual).Partial?;
      SmallChunkBringsOneFrame(p, s.residual, chunk);
    }
  }

  /** Less than a whole frame waits, so after taking one only part of a small chunk is left. */
  lemma SmallChunkBringsOneFrame(p: Protocol, waiting: Message, chunk: Message)
    requires !p.Line? && FrontOf(p, waiting).Partial? && |chunk| <= SmallestFrame(p)
    requires |waiting| + |chunk| < TWO_32
    ensures var o := Process(p, waiting + chunk);
            Parse(p, if o.Done? then (waiting + chunk)[o.consumed..] else waiting + chunk) == []
  {
    var bytes := waiting + chunk;
    ProcessTakesFront(p, bytes);
    assert bytes[0..] == bytes;
    if FrontOf(p, bytes).Frame? {
      var size := FrontOf(p, bytes).size;
      FrameIsLonger(p, waiting, chunk);
      TooShortForFrame(p, bytes[size..]);
    }
  }

  lemma ProcessTakesFront(p: Protocol, s: Message)
    requires !p.Line? && |s| < TWO_32
    ensures match FrontOf(p, s)
            case Frame(m, size) => Process(p, s) == Done([m], size)
            case Partial => Process(p, s).Overrun? || Process(p, s) == Done([], 0)
  {
  }

  lemma FrameIsLonger(p: Protocol, waiting: Message, chunk: Message)
    requires !p.Line? && FrontOf(p, waiting).Partial? && FrontOf(p, waiting + chunk).Frame?
    ensures |waiting| < FrontOf(p, waiting + chunk).size
  {
  }

  lemma TooShortForFrame(p: Protocol, s: Message)
    requires !p.Line? && |s| < SmallestFrame(p)
    ensures FrontOf(p, s).Partial?
  {
  }

  lemma ReadKeepsSizeInv(s: State, chunk: Message)
    requires ReadInv(s) && SizeInv(s) && !s.faulted && |s.residual| + |chunk| <= CAPACITY
    ensures SizeInv(ReadStep(s, chunk))
  {
    hide Process, Parse, Rest, FrontOf;
    var bytes := s.residual + chunk;
    OverrunExactly(s.proto, bytes);
    if Process(s.proto, bytes).Done? {
      ProcessAgrees(s.proto, bytes);
    }
  }

  lemma ReadKeepsWireInv(s: State, chunk: Message)
    requires WireInv(s)
    ensures WireInv(ReadStep(s, chunk))
  {
    hide Process, Flatten, EncodeAll, Parse, Rest, FrontOf;
    var p, o := s.proto, Process(s.proto, s.residual + chunk);
    if o.Done? {
      var more := Responses(o.messages);
      ResponsesConcat(s.delivered, o.messages);
      EncodeAllConcat(p, Responses(s.delivered), more);
      EncodeAllConcat(p, s.posted, more);
      Regroup(s.wire, Flatten(s.queue), EncodeAll(p, s.posted), EncodeAll(p, more));
    }
  }

  lemma ResponsesConcat(a: seq<Message>, b: seq<Message>)
    ensures Responses(a + b) == Responses(a) + Responses(b)
  {
  }

  lemma Regroup(a: Message, b: Message, c: Message, d: Message)
    ensures a + b + (c + d) == (a + b + c) + d
    ensures a + b + (c + d) == a + (b + c) + d
  {
  }

  lemma PostedKeepsInv(s: State)
    requires Inv(s) && Enabled(s, RunPosted)
    ensures Inv(PostedStep(s)) && !PostedStep(s).faulted
  {
    hide Parse, Rest, FrontOf, Encode, EncodeAll, Flatten, Fitting, Lag;
    assert s.posted[0] in s.posted;
    PostedKeepsWireInv(s);
    hide WireInv;
  }

  lemma PostedKeepsWireInv(s: State)
    requires WireInv(s) && s.posted != [] && Encodable(s.proto, s.posted[0])
    ensures WireInv(PostedStep(s))
  {
    var p, later := s.proto, s.posted[1..];
    var b := Encode(p, s.posted[0]);
    hide Encode;
    assert EncodeAll(p, s.posted) == b + EncodeAll(p, later);
    hide EncodeAll;
    FlattenSnoc(s.queue, b);
    Regroup(s.wire, Flatten(s.queue), b, EncodeAll(p, later));
  }

  lemma WriteDoneKeepsInv(s: State)
    requires Inv(s) && Enabled(s, WriteDone)
    ensures Inv(WrittenStep(s))
  {
    hide Parse, Rest, FrontOf, EncodeAll, Lag, Flatten, WireInv, Fitting;
    WriteDoneKeepsWireInv(s);
  }

  lemma WriteDoneKeepsWireInv(s: State)
    requires WireInv(s) && WriteInv(s) && s.open && s.queue != []
    ensures WireInv(WrittenStep(s))
  {
    hide EncodeAll;
    var front, later := s.queue[0], Flatten(s.queue[1..]);
    assert Flatten(s.queue) == front + later;
    hide Flatten;
    assert s.wire + (front + later) == (s.wire + front) + later;
  }

  lemma WriteFailsKeepsInv(s: State, sent: nat)
    requires Inv(s) && Enabled(s, WriteFails(sent))
    ensures Inv(WriteFailedStep(s, sent))
  {
  }

  lemma ReadKeepsInv(s: State, chunk: Message)
    requires Inv(s) && Enabled(s, Read(chunk))
    ensures Inv(ReadStep(s, chunk))
  {
    hide ReadInv, FitInv, SmallChunkInv, SizeInv, WireInv, Process;
    ReadKeepsReadInv(s, chunk);
    ReadKeepsFitInv(s, chunk);
    ReadKeepsSmallChunkInv(s, chunk);
    ReadKeepsSizeInv(s, chunk);
    ReadKeepsWireInv(s, chunk);
  }

  lemma ReadEndsKeepsInv(s: State)
    requires Inv(s)
    ensures Inv(s.(reading := false))
  {
    hide Parse, Rest, EncodeAll, Flatten, Lag, Fitting;
  }

  lemma StepKeepsInv(s: State, e: Event)
    requires Inv(s)
    ensures Inv(Step(s, e))
  {
    hide Inv, ReadStep, PostedStep, WrittenStep, WriteFailedStep;
    if Enabled(s, e) {
      match e
      case Read(chunk) => ReadKeepsInv(s, chunk);
      case ReadEnds => ReadEndsKeepsInv(s);
      case RunPosted => PostedKeepsInv(s);
      case WriteDone => WriteDoneKeepsInv(s);
      case WriteFails(sent) => WriteFailsKeepsInv(s, sent);
    }
  }

  lemma {:induction false} RunKeepsInv(s: State, events: seq<Event>)
    requires Inv(s)
    ensures Inv(After(s, events)) && After(s, events).proto == s.proto
    decreases |events|
  {
    hide Inv, Step;
    if events != [] {
      StepKeepsInv(s, events[0]);
      assert Step(s, events[0]).proto == s.proto by { StepKeepsProto(s, events[0]); }
      RunKeepsInv(Step(s, events[0]), events[1..]);
    }
  }

  lemma StepKeepsProto(s: State, e: Event)
    ensures Step(s, e).proto == s.proto
  {
  }

  /** The state after any sequence of events of a fresh session. */
  function Reached(p: Protocol, events: seq<Event>): State { After(Init(p), events) }

  lemma ReachedInv(p: Protocol, events: seq<Event>)
    ensures Inv(Reached(p, events)) && Reached(p, events).proto == p
  {
    InitInv(p);
    RunKeepsInv(Init(p), events);
  }

  // ---------- Reading ----------

  /** Line sessions are independent of chunking: what was delivered is what the whole stream
      holds, and the buffer holds exactly the unterminated tail. */
  lemma LineDelivery(events: seq<Event>)
    ensures var s := Reached(Line, events);
            s.delivered == Parse(Line, Received(s)) && s.residual == Rest(Line, Received(s))
  {
    ReachedInv(Line, events);
    var s := Reached(Line, events);
    assert Rest(Line, s.residual) == s.residual;
  }

  /** Every format, every chunking: delivered messages are a prefix of the whole-stream parse,
      the buffer holds the unconsumed suffix, and parsing it yields just the missing messages. */
  lemma DeliveredIsPrefix(p: Protocol, events: seq<Event>)
    ensures var s := Reached(p, events); var all := Received(s);
            && s.delivered <= Parse(p, all)
            && Parse(p, s.residual) == Parse(p, all)[|s.delivered|..]
            && |s.residual| <= |all| && s.residual == all[|all| - |s.residual|..]
  {
    hide Parse, Rest, FrontOf, After, Lag, SmallChunkInv, SizeInv, WireInv, WriteInv;
    ReachedInv(p, events);
  }

  /** Fixed and binary sessions lag by exactly this much after n reads. */
  lemma FramedLag(p: Protocol, events: seq<Event>)
    requires !p.Line?
    ensures var s := Reached(p, events);
            && (forall k :: 0 <= k <= |s.chunks| ==>
                  |s.delivered| <= Complete(p, s.chunks[..k]) + |s.chunks| - k)
            && (exists k: nat :: k <= |s.chunks| &&
                  |s.delivered| == Complete(p, s.chunks[..k]) + |s.chunks| - k)
  {
    var s := Reached(p, events);
    ReachedInv(p, events);
    LagIsMinimum(p, s.chunks);
    var k: nat :| AttainedAt(p, s.chunks, k);
  }

  /** Nothing complete is left waiting if and only if every stretch of reads up to the last brought
      no more frames than there were reads in it. */
  lemma NothingWaitsExactly(p: Protocol, events: seq<Event>)
    requires !p.Line?
    ensures var s := Reached(p, events);
            s.delivered == Parse(p, Received(s)) <==>
            forall k :: 0 <= k <= |s.chunks| ==>
              Complete(p, s.chunks) - Complete(p, s.chunks[..k]) <= |s.chunks| - k
  {
    var s := Reached(p, events);
    FramedLag(p, events);
    DeliveredIsPrefix(p, events);
    hide Reached, Parse;
    assert |s.delivered| == |Parse(p, Received(s))| ==> s.delivered == Parse(p, Received(s));
  }

  /** With chunks no longer than the smallest frame, nothing complete is ever left waiting. */
  lemma SmallChunksLeaveNothing(p: Protocol, events: seq<Event>)
    requires !p.Line?
    requires forall c :: c in Reached(p, events).chunks ==> |c| <= SmallestFrame(p)
    ensures var s := Reached(p, events);
            s.delivered == Parse(p, Received(s)) && s.residual == Rest(p, Received(s))
  {
    ReachedInv(p, events);
    var s := Reached(p, events);
    assert Rest(p, s.residual) == s.residual;
  }

  /** A read finds no room exactly when 4096 bytes have come in behind the last frame before the
      first one that does not fit; with a registered frame size that never happens. */
  lemma NoRoomExactly(p: Protocol, events: seq<Event>)
    ensures var s := Reached(p, events);
            && |s.residual| <= CAPACITY
            && (|s.residual| == CAPACITY <==> |Received(s)| == Fitting(p, Received(s)) + CAPACITY)
    ensures p.Fixed? && p.frameSize <= CAPACITY ==> |Reached(p, events).residual| < CAPACITY
  {
    ReachedInv(p, events);
    var s := Reached(p, events);
    hide After, SmallChunkInv, SizeInv, WireInv, WriteInv, Lag, Rest, Flatten;
    FittingConcat(p, Consumed(s), s.residual);
    if |s.residual| == CAPACITY {
      assert FrontOf(p, s.residual).Partial?;
    }
  }

  /** For a client that sends encoded messages: there is no room exactly when the first message
      whose encoding exceeds the buffer has brought its first 4096 bytes. */
  lemma NoRoomOnEncodings(p: Protocol, events: seq<Event>, ms: seq<Message>)
    requires forall m :: m in ms ==> Carries(p, m)
    requires Received(Reached(p, events)) <= EncodeAll(p, ms)
    ensures var s, k := Reached(p, events), FirstOversized(p, ms);
            && (|s.residual| == CAPACITY <==> |Received(s)| == |EncodeAll(p, ms[..k])| + CAPACITY)
            && (k == |ms| ==> |s.residual| < CAPACITY)
  {
    hide After, Fitting, Encode;
    NoRoomExactly(p, events);
    FittingOfEncodings(p, Received(Reached(p, events)), ms);
    assert ms[..|ms|] == ms;
  }

  /** One unterminated line of 4096 bytes is enough. */
  lemma NoRoomIsReachable(chunk: Message)
    requires |chunk| == CAPACITY && LF !in chunk
    ensures var s := Reached(Line, [Read(chunk)]); s.residual == chunk && !s.faulted && s.reading
  {
    assert [] + chunk == chunk && chunk[0..] == chunk;
    assert After(Step(Init(Line), Read(chunk)), []) == Step(Init(Line), Read(chunk));
    assert [Read(chunk)][1..] == [];
  }

  /** A session without room stays so: no later event delivers anything. */
  lemma {:induction false} NoRoomIsForever(s: State, events: seq<Event>)
    requires Inv(s) && |s.residual| == CAPACITY
    ensures After(s, events).delivered == s.delivered && After(s, events).residual == s.residual
    decreases |events|
  {
    assert Parse(s.proto, s.residual) == [];
    hide Inv, Step, Parse;
    if events != [] {
      var t := Step(s, events[0]);
      StepKeepsInv(s, events[0]);
      StuckStep(s, events[0]);
      NoRoomIsForever(t, events[1..]);
    }
  }

  lemma StuckStep(s: State, e: Event)
    requires |s.residual| == CAPACITY && Parse(s.proto, s.residual) == []
    ensures Step(s, e).delivered == s.delivered && Step(s, e).residual == s.residual
  {
  }

  /** A read makes the handler copy bytes it never received exactly when the binary header then
      at the front announces 2^32 - 4 bytes or more; nothing else ever faults. */
  lemma FaultExactly(p: Protocol, events: seq<Event>, e: Event)
    requires !Reached(p, events).faulted
    ensures var s := Reached(p, events);
            Step(s, e).faulted <==>
              e.Read? && Enabled(s, e) && p.Binary? && 4 <= |s.residual + e.chunk| &&
              TWO_32 - 4 <= Declared(s.residual + e.chunk)
  {
    ReachedInv(p, events);
    var s := Reached(p, events);
    hide After, Parse, Rest, FrontOf, Encode, EncodeAll, Flatten, Fitting, Lag, Process;
    if Enabled(s, e) {
      match e
      case Read(chunk) => OverrunExactly(p, s.residual + chunk);
      case RunPosted => PostedKeepsInv(s);
      case _ =>
    }
  }

  /** A session that has faulted has received a stream whose first incomplete frame is one with
      such a header. */
  lemma FaultOnStream(p: Protocol, events: seq<Event>)
    requires Reached(p, events).faulted
    ensures var rest := Rest(p, Received(Reached(p, events)));
            p.Binary? && 4 <= |rest| && TWO_32 - 4 <= Declared(rest)
  {
    var s := Reached(p, events);
    ReachedInv(p, events);
    hide After, Flatten, Fitting, Lag, FitInv, SmallChunkInv, WireInv, WriteInv, Parse;
    assert Rest(p, s.residual) == s.residual;
  }

  /** What a stream of encodings leaves unparsed is the beginning of one of them. */
  lemma {:induction false} RestOfEncodings(p: Protocol, s: Message, ms: seq<Message>)
    requires (forall m :: m in ms ==> Carries(p, m)) && s <= EncodeAll(p, ms)
    ensures Rest(p, s) == [] || exists m :: m in ms && Rest(p, s) <= Encode(p, m)
  {
    hide FrontOf, Encode, Canonical, Carries, Parse, Rest;
    if ms == [] {
      NothingToParse(p);
    } else {
      var first, rest := Encode(p, ms[0]), EncodeAll(p, ms[1..]);
      FrontOfPart(p, ms[0], rest, s);
      if |first| <= |s| {
        ParseUnfold(p, s);
        RestOfEncodings(p, s[|first|..], ms[1..]);
      } else {
        NoFrameRest(p, s);
        assert ms[0] in ms && s <= first;
      }
    }
  }

  /** A client that sends encoded messages never faults the session. */
  lemma NoFaultOnEncodings(p: Protocol, events: seq<Event>, ms: seq<Message>)
    requires forall m :: m in ms ==> Carries(p, m)
    requires Received(Reached(p, events)) <= EncodeAll(p, ms)
    ensures !Reached(p, events).faulted
  {
    var rest := Rest(p, Received(Reached(p, events)));
    RestOfEncodings(p, Received(Reached(p, events)), ms);
    hide Reached, Rest, EncodeAll, Received;
    if p.Binary? && 4 <= |rest| {
      var m :| m in ms && rest <= Encode(p, m);
      BeginningDeclares(m, rest);
    }
    if Reached(p, events).faulted {
      FaultOnStream(p, events);
    }
  }

  lemma BeginningDeclares(m: Message, s: Message)
    requires Encodable(Binary, m) && 4 <= |s| && s <= Encode(Binary, m)
    ensures Declared(s) < TWO_32 - 4
  {
    HeaderDeclares(|m|, m);
    hide Header;
    assert Declared(s) == Declared(Header(|m|) + m);
  }

  lemma FaultIsReachable()
    ensures Reached(Binary, [Read([255, 255, 255, 252])]).faulted
  {
    var e := Read([255, 255, 255, 252]);
    assert [] + e.chunk == e.chunk;
    OverrunExactly(Binary, e.chunk);
    assert [e][1..] == [];
    assert After(Step(Init(Binary), e), []) == Step(Init(Binary), e);
  }

  /** One read delivers at most one fixed or binary frame, so complete frames can wait for a later
      read: here two empty binary messages arrive together and one of them stays. */
  lemma FramesCanWait()
    ensures var s := Reached(Binary, [Read([0, 0, 0, 0, 0, 0, 0, 0])]);
            s.delivered == [[]] && Parse(Binary, s.residual) == [[]]
  {
    var e := Read([0, 0, 0, 0, 0, 0, 0, 0]);
    TwoEmptyMessages();
    hide Parse, Process, Step;
    assert [e][1..] == [];
    assert After(Step(Init(Binary), e), []) == Step(Init(Binary), e);
    TwoAtOnce(e.chunk);
  }

  lemma TwoEmptyMessages()
    ensures Process(Binary, [0, 0, 0, 0, 0, 0, 0, 0]) == Done([[]], 4)
    ensures Parse(Binary, [0, 0, 0, 0]) == [[]]
  {
    NothingToParse(Binary);
    assert Declared([0, 0, 0, 0, 0, 0, 0, 0]) == 0 && [0, 0, 0, 0, 0, 0, 0, 0][4..4] == [];
    assert FrontOf(Binary, [0, 0, 0, 0]) == Frame([], 4);
  }

  lemma TwoAtOnce(chunk: Message)
    requires |chunk| == 8 && Process(Binary, chunk) == Done([[]], 4)
    ensures var s := Step(Init(Binary), Read(chunk));
            s.delivered == [[]] && s.residual == chunk[4..]
  {
    hide Process;
    assert [] + chunk == chunk;
  }

  // ---------- Writing ----------

  /** In every reachable state one write is outstanding if and only if the queue is non-empty,
      and it is the write of the queue's front. */
  lemma OneWriteOfTheFront(p: Protocol, events: seq<Event>)
    ensures var s := Reached(p, events);
            && |s.writing| <= 1
            && (s.writing != [] <==> s.queue != [])
            && (s.writing != [] ==> s.writing[0] == s.queue[0])
  {
    ReachedInv(p, events);
  }

  /** Conservation in order: without a write error, what the peer accepted, what is queued and
      what is still posted make up the encoded echoes of everything delivered; after a write
      error the accepted bytes stay a prefix of them. */
  lemma WireConservation(p: Protocol, events: seq<Event>)
    ensures var s := Reached(p, events);
            var owed := EncodeAll(p, Responses(s.delivered));
            && (s.open ==> s.wire + Flatten(s.queue) + EncodeAll(p, s.posted) == owed)
            && s.wire <= owed
  {
    hide After, Parse, Rest, FrontOf, Flatten, EncodeAll, ReadInv, SmallChunkInv, SizeInv;
    ReachedInv(p, events);
    var s := Reached(p, events);
    if s.open {
      PrefixOfSum(s.wire, Flatten(s.queue), EncodeAll(p, s.posted));
    }
  }

  lemma PrefixOfSum(a: Message, b: Message, c: Message)
    ensures a <= a + b + c
  {
  }

  /** The line session end to end, stated on the bytes received alone. */
  lemma LineSession(events: seq<Event>)
    ensures var s := Reached(Line, events);
            var owed := EncodeAll(Line, Responses(Parse(Line, Received(s))));
            && (s.open ==> s.wire + Flatten(s.queue) + EncodeAll(Line, s.posted) == owed)
            && s.wire <= owed
  {
    hide *;
    LineDelivery(events);
    WireConservation(Line, events);
  }

  /** Once a write has failed the peer receives nothing more. */
  lemma {:induction false} NothingAfterFailure(s: State, events: seq<Event>)
    requires !s.open
    ensures After(s, events).wire == s.wire && !After(s, events).open
    decreases |events|
  {
    if events != [] {
      var t := Step(s, events[0]);
      assert t.wire == s.wire;
      NothingAfterFailure(t, events[1..]);
    }
  }

  /** Once the read side has ended nothing more is delivered, while writes go on. */
  lemma {:induction false} NothingAfterReadEnds(s: State, events: seq<Event>)
    requires !s.reading
    ensures After(s, events).delivered == s.delivered && !After(s, events).reading
    decreases |events|
  {
    if events != [] {
      var t := Step(s, events[0]);
      assert t.delivered == s.delivered && !t.reading;
      NothingAfterReadEnds(t, events[1..]);
    }
  }

  // ---------- Where each echo is ----------

  /** How many echoes have left the queue. */
  function Gone(s: State): int { |s.delivered| - |s.posted| - |s.queue| }

  /** The posted responses are the echoes of the last messages delivered, in order, and the queue
      holds the encodings of the ones before, one buffer for each, after an error too; while the
      socket is open the wire holds those of all earlier ones, whole. */
  ghost predicate PlaceLaw(s: State) {
    var all := Responses(s.delivered);
    && |s.posted| <= |all| && s.posted == all[|all| - |s.posted|..]
    && Encodes(s.proto, s.queue, all, Gone(s))
    && (s.open ==> s.wire == EncodeAll(s.proto, all[..Gone(s)]))
  }

  /** The buffers encode the responses from one position on. */
  predicate Encodes(p: Protocol, buffers: seq<Message>, all: seq<Message>, at: int) {
    && 0 <= at && at + |buffers| <= |all|
    && forall i :: 0 <= i < |buffers| ==> buffers[i] == Encode(p, all[at + i])
  }

  lemma EncodesMore(p: Protocol, buffers: seq<Message>, all: seq<Message>, at: int, more: seq<Message>)
    requires Encodes(p, buffers, all, at)
    ensures Encodes(p, buffers, all + more, at)
    ensures at + |buffers| < |all| ==>
              Encodes(p, buffers + [Encode(p, all[at + |buffers|])], all, at)
    ensures buffers != [] ==> buffers[0] == Encode(p, all[at]) && Encodes(p, buffers[1..], all, at + 1)
  {
    hide Encode;
  }

  lemma ReadKeepsPlace(s: State, chunk: Message)
    requires PlaceLaw(s)
    ensures PlaceLaw(ReadStep(s, chunk)) && Gone(ReadStep(s, chunk)) == Gone(s)
  {
    hide Process, Encode, EncodeAll, Encodes;
    var o := Process(s.proto, s.residual + chunk);
    if o.Done? {
      ResponsesConcat(s.delivered, o.messages);
      var all, more := Responses(s.delivered), Responses(o.messages);
      assert (all + more)[|all| - |s.posted|..] == all[|all| - |s.posted|..] + more;
      EncodesMore(s.proto, s.queue, all, Gone(s), more);
      InRange(s.proto, s.queue, all, Gone(s));
      assert (all + more)[..Gone(s)] == all[..Gone(s)];
    }
  }

  lemma InRange(p: Protocol, buffers: seq<Message>, all: seq<Message>, at: int)
    requires Encodes(p, buffers, all, at)
    ensures 0 <= at && at + |buffers| <= |all|
  {
  }

  lemma PostedKeepsPlace(s: State)
    requires PlaceLaw(s) && s.posted != [] && Encodable(s.proto, s.posted[0])
    ensures PlaceLaw(PostedStep(s)) && Gone(PostedStep(s)) == Gone(s)
  {
    hide Encode, EncodeAll, Encodes, Responses;
    var all := Responses(s.delivered);
    EncodesMore(s.proto, s.queue, all, Gone(s), []);
    InRange(s.proto, s.queue, all, Gone(s));
    assert s.posted[0] == all[|all| - |s.posted|];
    assert s.posted[1..] == all[|all| - |s.posted| + 1..];
  }

  lemma WrittenKeepsPlace(s: State)
    requires PlaceLaw(s) && WriteInv(s) && s.open && s.writing != []
    ensures PlaceLaw(WrittenStep(s)) && Gone(WrittenStep(s)) == Gone(s) + 1
  {
    hide Encode, EncodeAll, Encodes, Responses;
    var all, n := Responses(s.delivered), Gone(s);
    EncodesMore(s.proto, s.queue, all, n, []);
    InRange(s.proto, s.queue, all, n);
    assert all[..n + 1] == all[..n] + [all[n]];
    EncodeAllConcat(s.proto, all[..n], [all[n]]);
    EncodeOne(s.proto, all[n]);
  }

  lemma EncodeOne(p: Protocol, m: Message)
    ensures EncodeAll(p, [m]) == Encode(p, m)
  {
    assert EncodeAll(p, [m]) == Encode(p, m) + EncodeAll(p, [m][1..]);
  }

  lemma StepKeepsPlace(s: State, e: Event)
    requires Inv(s) && PlaceLaw(s)
    ensures PlaceLaw(Step(s, e))
    ensures Step(s, e).open ==> Gone(Step(s, e)) == Gone(s) + (if Enabled(s, e) && e.WriteDone? then 1 else 0)
  {
    hide PlaceLaw, ReadStep, WrittenStep, PostedStep, ReadInv, FitInv, SmallChunkInv, WireInv;
    if Enabled(s, e) {
      match e
      case Read(chunk) => ReadKeepsPlace(s, chunk);
      case ReadEnds => PlaceDependsOn(s, Step(s, e));
      case RunPosted =>
        assert s.posted[0] in s.posted;
        PostedKeepsPlace(s);
      case WriteDone => WrittenKeepsPlace(s);
      case WriteFails(sent) => PlaceAfterFailure(s, sent);
    }
  }

  lemma PlaceDependsOn(s: State, t: State)
    requires PlaceLaw(s) && t.posted == s.posted && t.delivered == s.delivered && t.queue == s.queue
    requires t.wire == s.wire && t.open == s.open && t.proto == s.proto
    ensures PlaceLaw(t)
  {
    hide Encodes, EncodeAll, Responses;
  }

  lemma PlaceAfterFailure(s: State, sent: nat)
    requires PlaceLaw(s) && Enabled(s, WriteFails(sent))
    ensures PlaceLaw(WriteFailedStep(s, sent))
  {
  }

  lemma {:induction false} RunKeepsPlace(s: State, events: seq<Event>)
    requires Inv(s) && PlaceLaw(s)
    ensures PlaceLaw(After(s, events))
    ensures After(s, events).open ==>
              Gone(After(s, events)) == Gone(s) + Occurrences(s, events, (e: Event) => e.WriteDone?)
    decreases |events|
  {
    hide Inv, PlaceLaw, Step, Enabled, Gone;
    if events != [] {
      StepKeepsInv(s, events[0]);
      StepKeepsPlace(s, events[0]);
      OpenStep(s, events[0]);
      OpenExactly(Step(s, events[0]), events[1..]);
      RunKeepsPlace(Step(s, events[0]), events[1..]);
    }
  }

  /** From any reachable state on, with the socket open or closed: each delivery posts one response,
      of which nothing but a posted task's running takes one away; this puts one buffer into the
      queue, a completion takes one out, and nothing else does until a write fails. */
  lemma {:induction false} QueueCounts(s: State, events: seq<Event>)
    requires Inv(s)
    ensures |After(s, events).delivered| - |After(s, events).posted| ==
            |s.delivered| - |s.posted| + Occurrences(s, events, (e: Event) => e.RunPosted?)
    ensures Occurrences(s, events, (e: Event) => e.WriteFails?) == 0 ==>
              |After(s, events).queue| ==
              |s.queue| + Occurrences(s, events, (e: Event) => e.RunPosted?)
              - Occurrences(s, events, (e: Event) => e.WriteDone?)
    decreases |events|
  {
    hide Inv, Step, Enabled;
    if events != [] {
      StepKeepsInv(s, events[0]);
      QueueStep(s, events[0]);
      QueueCounts(Step(s, events[0]), events[1..]);
    }
  }

  lemma QueueStep(s: State, e: Event)
    requires Inv(s)
    ensures Enabled(s, e) && e.WriteFails? ==> Step(s, e).queue == []
    ensures |Step(s, e).delivered| - |Step(s, e).posted| ==
            |s.delivered| - |s.posted| + (if Enabled(s, e) && e.RunPosted? then 1 else 0)
    ensures !(Enabled(s, e) && e.WriteFails?) ==>
              |Step(s, e).queue| == |s.queue| + (if Enabled(s, e) && e.RunPosted? then 1 else 0)
                                    - (if Enabled(s, e) && e.WriteDone? then 1 else 0)
  {
    hide ReadInv, FitInv, SmallChunkInv, WireInv, Process, Encode;
    if Enabled(s, e) && e.RunPosted? {
      assert s.posted[0] in s.posted;
    }
  }

  /** In every run each echo is in its place: posted, queued in a buffer of its own, or on the wire
      after one completed write; all in the order of delivery. */
  lemma EveryEchoHasItsPlace(p: Protocol, events: seq<Event>)
    ensures var s := Reached(p, events); var all := Responses(s.delivered);
            var done := Occurrences(Init(p), events, (e: Event) => e.WriteDone?);
            && |s.queue| + |s.posted| <= |all| && s.posted == all[|all| - |s.posted|..]
            && (forall i :: 0 <= i < |s.queue| ==>
                  s.queue[i] == Encode(p, all[|all| - |s.posted| - |s.queue| + i]))
            && (s.open ==>
                  done + |s.queue| + |s.posted| == |all| && s.wire == EncodeAll(p, all[..done]))
  {
    hide After, Occurrences, Inv, Encode, EncodeAll, Responses, Init;
    InitInv(p);
    InitPlace(p);
    ReachedInv(p, events);
    RunKeepsPlace(Init(p), events);
  }

  lemma InitPlace(p: Protocol)
    ensures PlaceLaw(Init(p)) && Gone(Init(p)) == 0
  {
  }

  // ---------- Draining ----------

  predicate AllEnabled(s: State, events: seq<Event>)
    decreases |events|
  {
    events == [] || (Enabled(s, events[0]) && AllEnabled(Step(s, events[0]), events[1..]))
  }

  predicate Drains(events: seq<Event>) {
    forall e :: e in events ==> e.RunPosted? || e.WriteDone?
  }

  function Backlog(s: State): nat { 2 * |s.posted| + |s.queue| }

  /** With reads stopped and no error, each step takes one off the backlog, and the run can go on
      exactly while there is backlog: it drains in 2 * |posted| + |queue| steps, in any order. */
  lemma {:induction false} DrainExactly(s: State, events: seq<Event>)
    requires Inv(s) && s.open && !s.faulted
    requires Drains(events) && AllEnabled(s, events)
    ensures var t := After(s, events);
            && Backlog(t) == Backlog(s) - |events|
            && t.open && !t.faulted && t.delivered == s.delivered
            && (Backlog(t) == 0 <==> !Enabled(t, RunPosted) && !Enabled(t, WriteDone))
            && (Backlog(t) == 0 ==> t.wire == Expected(t))
    decreases |events|
  {
    if events == [] {
      if Backlog(s) == 0 {
        assert s.wire + [] + [] == s.wire;
      }
    } else {
      var t := Step(s, events[0]);
      StepKeepsInv(s, events[0]);
      assert events[0] in events;
      assert Drains(events[1..]) by { assert forall e :: e in events[1..] ==> e in events; }
      DrainStep(s, events[0]);
      hide Inv, Step, Enabled;
      DrainExactly(t, events[1..]);
    }
  }

  lemma DrainStep(s: State, e: Event)
    requires Inv(s) && s.open && !s.faulted && Enabled(s, e) && (e.RunPosted? || e.WriteDone?)
    ensures var t := Step(s, e);
            t.open && !t.faulted && t.delivered == s.delivered && Backlog(t) == Backlog(s) - 1
  {
  }

  // ---------- End to end ----------

  lemma {:induction false} LinesHoldNoLF(s: Message)
    ensures forall m :: m in Parse(Line, s) ==> LF !in m
    decreases |s|
  {
    if FrontOf(Line, s).Frame? {
      LinesHoldNoLF(s[FrontOf(Line, s).size..]);
    }
  }

  /** Whatever has been delivered, its echoes survive the format. */
  lemma EchoesAreCarried(s: State)
    requires ReadInv(s) && SizeInv(s)
    ensures forall r :: r in Responses(s.delivered) ==> Carries(s.proto, r)
  {
    hide Parse, Rest, FrontOf, EncodeAll, Lag, Fitting, Flatten;
    LinesHoldNoLF(Received(s));
    forall r | r in Responses(s.delivered) ensures Carries(s.proto, r) {
      var i :| 0 <= i < |s.delivered| && Responses(s.delivered)[i] == r;
      assert s.delivered[i] in s.delivered && r == Echo(s.delivered[i]);
      assert s.delivered[i] == Parse(s.proto, Received(s))[i];
    }
  }

  lemma ParseOfPrefix(p: Protocol, a: Message, all: Message)
    requires a <= all
    ensures Parse(p, a) <= Parse(p, all)
  {
    hide Parse, Rest;
    ParseSplit(p, a, all[|a|..]);
    assert a + all[|a|..] == all;
  }

  /** At every moment of every run, half-sent buffers and write errors included, parsing what the
      peer has got yields echoes of what was delivered, in order and from the first one on. */
  lemma EchoesInOrder(p: Protocol, events: seq<Event>)
    ensures var s := Reached(p, events);
            Parse(p, s.wire) <= CanonicalAll(p, Responses(s.delivered))
  {
    ReachedInv(p, events);
    hide *;
    WireConservation(p, events);
    EchoesAreCarried(Reached(p, events));
    StreamRoundTrip(p, Responses(Reached(p, events).delivered));
    ParseOfPrefix(p, Reached(p, events).wire, EncodeAll(p, Responses(Reached(p, events).delivered)));
  }

  /** A client that sends encoded messages and parses what comes back gets the echo of each
      delivered one, in order, whenever the session has drained: for every chunking and every
      interleaving, bursts included. */
  lemma EchoEndToEnd(p: Protocol, events: seq<Event>, ms: seq<Message>)
    requires forall m :: m in ms ==> Carries(p, m)
    requires Received(Reached(p, events)) <= EncodeAll(p, ms)
    requires Reached(p, events).open && Backlog(Reached(p, events)) == 0
    ensures var s := Reached(p, events);
            && |s.delivered| <= |ms|
            && Parse(p, s.wire) == CanonicalAll(p, Responses(CanonicalAll(p, ms)[..|s.delivered|]))
  {
    var s := Reached(p, events);
    ReachedInv(p, events);
    hide Parse, Rest, FrontOf, After, EncodeAll, Lag, Encode, Canonical, Carries, Fitting;
    hide ReadInv, SmallChunkInv, SizeInv;
    DrainedWire(s);
    DeliveredIsPrefix(p, events);
    ParseOfPrefix(p, Received(s), EncodeAll(p, ms));
    StreamRoundTrip(p, ms);
    assert s.delivered == CanonicalAll(p, ms)[..|s.delivered|];
    EchoesAreCarried(s);
    StreamRoundTrip(p, Responses(s.delivered));
  }

  /** Byte by byte: the k-th message the peer parses is the text "Echo: " followed by the k-th
      message delivered, of which a fixed frame has lost its last six bytes. */
  lemma EchoedBytes(p: Protocol, events: seq<Event>, i: nat)
    requires i < |Parse(p, Reached(p, events).wire)|
    ensures var s := Reached(p, events);
            && i < |s.delivered|
            && var echo, m := Parse(p, s.wire)[i], s.delivered[i];
            && |echo| == (if p.Fixed? then |m| else 6 + |m|)
            && (p.Fixed? ==> |m| == p.frameSize)
            && forall k :: 0 <= k < |echo| ==>
                 echo[k] as int == if k < 6 then "Echo: "[k] as int else m[k - 6] as int
  {
    var s := Reached(p, events);
    EchoesInOrder(p, events);
    DeliveredIsPrefix(p, events);
    hide After, Parse, Encode, Flatten;
    assert Parse(p, s.wire)[i] == CanonicalAll(p, Responses(s.delivered))[i];
    assert Parse(p, s.wire)[i] == Canonical(p, Echo(s.delivered[i]));
    EncodedBytes(p, Echo(s.delivered[i]));
    if p.Fixed? {
      FixedMessagesFill(p, Received(s));
      assert s.delivered[i] == Parse(p, Received(s))[i];
    }
  }

  lemma {:induction false} FixedMessagesFill(p: Protocol, s: Message)
    requires p.Fixed?
    ensures forall m :: m in Parse(p, s) ==> |m| == p.frameSize
    decreases |s|
  {
    if FrontOf(p, s).Frame? {
      FixedMessagesFill(p, s[FrontOf(p, s).size..]);
    }
  }

  lemma DrainedWire(s: State)
    requires WireInv(s) && s.open && Backlog(s) == 0
    ensures s.wire == Expected(s)
  {
  }
}
