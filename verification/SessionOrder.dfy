/** The session of module SessionModel when the responses it has posted may run in any order, as
    when several worker threads share one io_context: what it keeps, and what the client gets. */
module SessionOrder {
  import opened Bytes
  import opened Framing
  import opened Codec
  import opened SessionModel

  /** A session and, as history, the responses whose posted tasks have run, in that order. */
  datatype Session = Session(state: State, ran: seq<Message>)

  /** The k-th posted task runs, or anything else happens. */
  datatype AnyEvent = RunAt(k: nat) | Other(event: Event)

  function Start(p: Protocol): Session { Session(Init(p), []) }

  /** The k-th posted task moved before the others. */
  function Fetched(posted: seq<Message>, k: nat): (r: seq<Message>)
    requires k < |posted|
    ensures multiset(r) == multiset(posted) && r != [] && r[0] == posted[k]
  {
    assert posted == posted[..k] + [posted[k]] + posted[k + 1..];
    [posted[k]] + posted[..k] + posted[k + 1..]
  }

  predicate Possible(t: Session, e: AnyEvent) {
    match e
    case RunAt(k) => !t.state.faulted && k < |t.state.posted|
    case Other(event) => !event.RunPosted? && Enabled(t.state, event)
  }

  function RunStep(t: Session, k: nat): Session
    requires k < |t.state.posted|
  {
    Session(PostedStep(t.state.(posted := Fetched(t.state.posted, k))), t.ran + [t.state.posted[k]])
  }

  function AnyStep(t: Session, e: AnyEvent): Session {
    if !Possible(t, e) then t
    else
      match e
      case RunAt(k) => RunStep(t, k)
      case Other(event) => t.(state := Step(t.state, event))
  }

  function AnyAfter(t: Session, events: seq<AnyEvent>): Session
    decreases |events|
  {
    if events == [] then t else AnyAfter(AnyStep(t, events[0]), events[1..])
  }

  /** What a session keeps whatever the order. */
  ghost predicate StateInv(s: State) { ReadInv(s) && FitInv(s) && SizeInv(s) && WriteInv(s) }

  /** The accepted and queued bytes are the encodings of what has run, in that order; what has run
      and what is posted make up the echoes of everything delivered. */
  ghost predicate OrderLaw(t: Session) {
    var s := t.state;
    && multiset(t.ran) + multiset(s.posted) == multiset(Responses(s.delivered))
    && (if s.open then s.wire + Flatten(s.queue) == EncodeAll(s.proto, t.ran)
        else s.wire <= EncodeAll(s.proto, t.ran))
  }

  ghost predicate OrderInv(t: Session) { StateInv(t.state) && OrderLaw(t) }

  lemma StartInv(p: Protocol)
    ensures OrderInv(Start(p))
  {
    InitInv(p);
  }

  lemma SameReading(s: State, t: State)
    requires ReadInv(s) && FitInv(s)
    requires t.proto == s.proto && t.residual == s.residual && t.chunks == s.chunks
    requires t.delivered == s.delivered
    ensures ReadInv(t) && FitInv(t)
  {
  }

  lemma SameMembers(a: seq<Message>, b: seq<Message>)
    requires multiset(a) == multiset(b)
    ensures forall m :: m in a ==> m in b
  {
    forall m | m in a ensures m in b {
      assert m in multiset(a);
      assert m in multiset(b);
    }
  }

  lemma FetchedKeepsState(s: State, k: nat)
    requires StateInv(s) && k < |s.posted|
    ensures StateInv(s.(posted := Fetched(s.posted, k)))
  {
    hide ReadInv, FitInv, Fetched;
    var posted := Fetched(s.posted, k);
    SameReading(s, s.(posted := posted));
    SameMembers(posted, s.posted);
  }

  lemma PostedKeepsState(s: State)
    requires StateInv(s) && !s.faulted && s.posted != []
    ensures StateInv(PostedStep(s)) && !PostedStep(s).faulted
    ensures Encodable(s.proto, s.posted[0])
  {
    hide ReadInv, FitInv, Encode;
    assert s.posted[0] in s.posted;
    SameReading(s, PostedStep(s));
  }

  lemma RunKeepsState(t: Session, k: nat)
    requires StateInv(t.state) && !t.state.faulted && k < |t.state.posted|
    ensures StateInv(RunStep(t, k).state) && !RunStep(t, k).state.faulted
    ensures Encodable(t.state.proto, t.state.posted[k])
  {
    FetchedKeepsState(t.state, k);
    hide StateInv, PostedStep;
    PostedKeepsState(t.state.(posted := Fetched(t.state.posted, k)));
  }

  /** What running a task does to the fields the law speaks of. */
  lemma PostedFields(s: State)
    requires s.posted != [] && Encodable(s.proto, s.posted[0])
    ensures var u := PostedStep(s);
            && u.posted == s.posted[1..] && u.queue == s.queue + [Encode(s.proto, s.posted[0])]
            && u.wire == s.wire && u.open == s.open && u.proto == s.proto && u.delivered == s.delivered
  {
  }

  lemma RunKeepsLaw(t: Session, k: nat)
    requires OrderLaw(t) && k < |t.state.posted| && Encodable(t.state.proto, t.state.posted[k])
    ensures OrderLaw(RunStep(t, k))
  {
    hide Encode, EncodeAll, Encodable, Flatten, PostedStep, Fetched, Responses;
    var s, m := t.state, t.state.posted[k];
    var posted := Fetched(s.posted, k);
    PostedFields(s.(posted := posted));
    OneMoved(t.ran, s.posted, posted);
    EncodeAllConcat(s.proto, t.ran, [m]);
    EncodeOne(s.proto, m);
    FlattenSnoc(s.queue, Encode(s.proto, m));
    Reassociate(s.wire, Flatten(s.queue), Encode(s.proto, m));
  }

  lemma OneMoved(ran: seq<Message>, posted: seq<Message>, fetched: seq<Message>)
    requires fetched != [] && multiset(fetched) == multiset(posted)
    ensures multiset(ran + [fetched[0]]) + multiset(fetched[1..]) == multiset(ran) + multiset(posted)
  {
    assert fetched == [fetched[0]] + fetched[1..];
  }

  lemma ReadKeepsLaw(t: Session, chunk: Message)
    requires OrderLaw(t)
    ensures OrderLaw(t.(state := ReadStep(t.state, chunk)))
  {
    var s, o := t.state, Process(t.state.proto, t.state.residual + chunk);
    hide Process, Flatten, EncodeAll;
    if o.Done? {
      ResponsesConcat(s.delivered, o.messages);
      assert multiset(s.posted + Responses(o.messages))
          == multiset(s.posted) + multiset(Responses(o.messages));
      assert multiset(Responses(s.delivered) + Responses(o.messages))
          == multiset(Responses(s.delivered)) + multiset(Responses(o.messages));
    }
  }

  lemma WrittenKeepsLaw(t: Session)
    requires OrderLaw(t) && WriteInv(t.state) && t.state.open && t.state.writing != []
    ensures OrderLaw(t.(state := WrittenStep(t.state)))
  {
    var s := t.state;
    hide EncodeAll, Flatten;
    FlattenFirst(s.queue);
    Reassociate(s.wire, s.queue[0], Flatten(s.queue[1..]));
  }

  lemma FailureKeepsLaw(t: Session, sent: nat)
    requires OrderLaw(t) && WriteInv(t.state) && Enabled(t.state, WriteFails(sent))
    ensures OrderLaw(t.(state := WriteFailedStep(t.state, sent)))
  {
    var s := t.state;
    hide EncodeAll, Flatten;
    FlattenFirst(s.queue);
    Reassociate(s.wire, s.queue[0], Flatten(s.queue[1..]));
  }

  lemma OtherKeepsState(s: State, e: Event)
    requires StateInv(s) && !e.RunPosted?
    ensures StateInv(Step(s, e))
  {
    hide Parse, Rest, FrontOf, Process, Fitting, Lag, Flatten;
    if Enabled(s, e) && e.Read? {
      hide ReadStep, ReadInv, FitInv, SizeInv;
      ReadKeepsReadInv(s, e.chunk);
      ReadKeepsFitInv(s, e.chunk);
      ReadKeepsSizeInv(s, e.chunk);
      ReadKeepsWriteInv(s, e.chunk);
    }
  }

  lemma ReadKeepsWriteInv(s: State, chunk: Message)
    requires WriteInv(s)
    ensures WriteInv(ReadStep(s, chunk))
  {
  }

  lemma StepKeepsOrder(t: Session, e: AnyEvent)
    requires OrderInv(t)
    ensures OrderInv(AnyStep(t, e)) && AnyStep(t, e).state.proto == t.state.proto
  {
    hide StateInv, OrderLaw, ReadStep, WrittenStep, WriteFailedStep;
    if Possible(t, e) {
      match e
      case RunAt(k) =>
        RunKeepsState(t, k);
        RunKeepsLaw(t, k);
      case Other(event) =>
        OtherKeepsState(t.state, event);
        StepKeepsProto(t.state, event);
        OtherKeepsLaw(t, event);
    }
  }

  lemma OtherKeepsLaw(t: Session, e: Event)
    requires OrderInv(t) && !e.RunPosted? && Enabled(t.state, e)
    ensures OrderLaw(t.(state := Step(t.state, e)))
  {
    assert WriteInv(t.state);
    hide StateInv, ReadStep, WrittenStep, WriteFailedStep;
    match e
    case Read(chunk) => ReadKeepsLaw(t, chunk);
    case ReadEnds =>
    case WriteDone => WrittenKeepsLaw(t);
    case WriteFails(sent) => FailureKeepsLaw(t, sent);
  }

  lemma {:induction false} RunKeepsOrder(t: Session, events: seq<AnyEvent>)
    requires OrderInv(t)
    ensures OrderInv(AnyAfter(t, events)) && AnyAfter(t, events).state.proto == t.state.proto
    decreases |events|
  {
    hide OrderInv, AnyStep;
    if events != [] {
      StepKeepsOrder(t, events[0]);
      RunKeepsOrder(AnyStep(t, events[0]), events[1..]);
    }
  }

  function AnyReached(p: Protocol, events: seq<AnyEvent>): Session { AnyAfter(Start(p), events) }

  lemma AnyReachedInv(p: Protocol, events: seq<AnyEvent>)
    ensures OrderInv(AnyReached(p, events)) && AnyReached(p, events).state.proto == p
  {
    StartInv(p);
    RunKeepsOrder(Start(p), events);
  }

  // ---------- What holds in any order ----------

  /** Reading and the write queue do not depend on the order: delivered messages and the buffer are
      those of the received stream, and one write is outstanding if and only if the queue is
      non-empty, for its front. */
  lemma OrderDoesNotMatter(p: Protocol, events: seq<AnyEvent>)
    ensures var s := AnyReached(p, events).state;
            && s.delivered + Parse(p, s.residual) == Parse(p, Received(s))
            && |s.residual| <= |Received(s)|
            && s.residual == Received(s)[|Received(s)| - |s.residual|..]
            && (p.Line? ==> Parse(p, s.residual) == [])
            && (!p.Line? ==> |s.delivered| == Lag(p, s.chunks))
            && s.writing == (if s.queue == [] then [] else [s.queue[0]])
  {
    AnyReachedInv(p, events);
    hide AnyReached, OrderLaw, Parse, Rest, Lag, Fitting, Flatten;
  }

  lemma RanAreCarried(t: Session)
    requires OrderInv(t)
    ensures forall m :: m in t.ran ==> Carries(t.state.proto, m)
  {
    hide StateInv, Responses, Carries, EncodeAll, Flatten;
    PartOf(t.ran, t.state.posted, Responses(t.state.delivered));
    StateParts(t.state);
    EchoesAreCarried(t.state);
  }

  lemma PartOf(part: seq<Message>, other: seq<Message>, all: seq<Message>)
    requires multiset(part) + multiset(other) == multiset(all)
    ensures forall m :: m in part ==> m in all
  {
    assert multiset(part + other) == multiset(all);
    SameMembers(part + other, all);
  }

  lemma StateParts(s: State)
    requires StateInv(s)
    ensures ReadInv(s) && SizeInv(s)
  {
  }

  lemma RanIsAhead(t: Session)
    requires OrderInv(t)
    ensures t.state.wire <= EncodeAll(t.state.proto, t.ran)
    ensures multiset(t.ran) <= multiset(Responses(t.state.delivered))
    ensures t.state.open && Backlog(t.state) == 0 ==>
              && t.state.wire == EncodeAll(t.state.proto, t.ran)
              && multiset(t.ran) == multiset(Responses(t.state.delivered))
  {
    hide StateInv, EncodeAll;
    assert Flatten([]) == [] && t.state.wire + [] == t.state.wire;
  }

  /** At every moment of every run the peer's bytes parse to echoes of distinct deliveries, in the
      order in which their tasks have run; once an error-free session has drained, to the echoes of
      all deliveries, each exactly as often as it was delivered. */
  lemma EchoesInAnyOrder(p: Protocol, events: seq<AnyEvent>)
    ensures var t := AnyReached(p, events);
            && Parse(p, t.state.wire) <= CanonicalAll(p, t.ran)
            && multiset(t.ran) <= multiset(Responses(t.state.delivered))
            && (t.state.open && Backlog(t.state) == 0 ==>
                  && Parse(p, t.state.wire) == CanonicalAll(p, t.ran)
                  && multiset(t.ran) == multiset(Responses(t.state.delivered)))
  {
    var t := AnyReached(p, events);
    AnyReachedInv(p, events);
    hide *;
    RanIsAhead(t);
    RanAreCarried(t);
    StreamRoundTrip(p, t.ran);
    ParseOfPrefix(p, t.state.wire, EncodeAll(p, t.ran));
  }

  /** The drained reply is the one in order if and only if the tasks ran in an order that, on the
      wire, looks like the order of delivery. */
  lemma InOrderExactly(p: Protocol, events: seq<AnyEvent>)
    requires AnyReached(p, events).state.open && Backlog(AnyReached(p, events).state) == 0
    ensures var t := AnyReached(p, events);
            t.state.wire == Expected(t.state) <==>
            CanonicalAll(p, t.ran) == CanonicalAll(p, Responses(t.state.delivered))
  {
    var t := AnyReached(p, events);
    var owed := Responses(t.state.delivered);
    AnyReachedInv(p, events);
    assert Expected(t.state) == EncodeAll(p, owed);
    hide *;
    RanIsAhead(t);
    RanAreCarried(t);
    OwedAreCarried(t);
    StreamRoundTrip(p, t.ran);
    StreamRoundTrip(p, owed);
    if CanonicalAll(p, t.ran) == CanonicalAll(p, owed) {
      SameCanonical(p, t.ran, owed);
    }
  }

  lemma OwedAreCarried(t: Session)
    requires OrderInv(t)
    ensures forall m :: m in Responses(t.state.delivered) ==> Carries(t.state.proto, m)
  {
    hide StateInv, Responses, Carries;
    StateParts(t.state);
    EchoesAreCarried(t.state);
  }

  lemma {:induction false} SameCanonical(p: Protocol, a: seq<Message>, b: seq<Message>)
    requires CanonicalAll(p, a) == CanonicalAll(p, b)
    ensures EncodeAll(p, a) == EncodeAll(p, b)
  {
    assert |CanonicalAll(p, a)| == |a| && |CanonicalAll(p, b)| == |b|;
    if a != [] {
      assert Canonical(p, a[0]) == CanonicalAll(p, a)[0] == CanonicalAll(p, b)[0] == Canonical(p, b[0]);
      assert CanonicalAll(p, a)[1..] == CanonicalAll(p, a[1..]);
      assert CanonicalAll(p, b)[1..] == CanonicalAll(p, b[1..]);
      SameCanonical(p, a[1..], b[1..]);
    }
  }

  // ---------- Draining ----------

  predicate AllPossible(t: Session, events: seq<AnyEvent>)
    decreases |events|
  {
    events == [] || (Possible(t, events[0]) && AllPossible(AnyStep(t, events[0]), events[1..]))
  }

  predicate DrainsAnyhow(events: seq<AnyEvent>) {
    forall e :: e in events ==> e.RunAt? || e.event.WriteDone?
  }

  /** With reads stopped and no error a session drains in 2 * |posted| + |queue| steps, whichever
      posted task runs next at each of them. */
  lemma {:induction false} DrainsInAnyOrder(t: Session, events: seq<AnyEvent>)
    requires OrderInv(t) && t.state.open && !t.state.faulted
    requires DrainsAnyhow(events) && AllPossible(t, events)
    ensures var u := AnyAfter(t, events);
            && OrderInv(u) && u.state.open && !u.state.faulted && u.state.delivered == t.state.delivered
            && Backlog(u.state) == Backlog(t.state) - |events|
            && (Backlog(u.state) == 0 <==>
                  u.state.posted == [] && !Possible(u, Other(WriteDone)))
    decreases |events|
  {
    hide OrderInv, AnyStep, Possible;
    if events == [] {
      EmptyIsDone(t);
    } else {
      assert events[0] in events && forall e :: e in events[1..] ==> e in events;
      StepKeepsOrder(t, events[0]);
      AnyDrainStep(t, events[0]);
      DrainsInAnyOrder(AnyStep(t, events[0]), events[1..]);
    }
  }

  lemma EmptyIsDone(t: Session)
    requires OrderInv(t) && t.state.open && !t.state.faulted
    ensures Backlog(t.state) == 0 <==> t.state.posted == [] && !Possible(t, Other(WriteDone))
  {
    hide ReadInv, FitInv, SizeInv, OrderLaw;
  }

  lemma AnyDrainStep(t: Session, e: AnyEvent)
    requires OrderInv(t) && t.state.open && !t.state.faulted && Possible(t, e)
    requires e.RunAt? || e.event.WriteDone?
    ensures var u := AnyStep(t, e);
            && u.state.open && !u.state.faulted && u.state.delivered == t.state.delivered
            && Backlog(u.state) == Backlog(t.state) - 1
  {
    hide ReadInv, FitInv, SizeInv, OrderLaw;
    if e.RunAt? {
      RunKeepsState(t, e.k);
      FetchedLength(t.state.posted, e.k);
      hide Fetched;
    }
  }

  lemma FetchedLength(posted: seq<Message>, k: nat)
    requires k < |posted|
    ensures |Fetched(posted, k)| == |posted|
  {
  }

  // ---------- Out of order ----------

  /** Any two different lines that arrive together may be echoed in the other order. */
  lemma EchoesCanSwap(a: Message, b: Message, chunk: Message)
    requires LF !in a && LF !in b && a != b
    requires chunk == EncodeAll(Line, [a, b]) && |chunk| <= CAPACITY
    ensures var t := AnyReached(Line, [Other(Read(chunk)), RunAt(1), Other(WriteDone)]);
            && t.state.delivered == [a, b]
            && t.state.wire == Encode(Line, Echo(b))
            && !(t.state.wire <= Expected(t.state))
  {
    var events := [Other(Read(chunk)), RunAt(1), Other(WriteDone)];
    TwoLines(a, b, chunk);
    var s := Step(Init(Line), Read(chunk));
    assert AnyStep(Start(Line), events[0]) == Session(s, []);
    hide Step, EncodeAll, Encode;
    BothPosted(s, a, b);
    ThreeAnySteps(Start(Line), events[0], events[1], events[2]);
    hide AnyStep, AnyAfter;
    SwappedIsNoPrefix(a, b);
  }

  lemma ThreeAnySteps(t: Session, a: AnyEvent, b: AnyEvent, c: AnyEvent)
    ensures AnyAfter(t, [a, b, c]) == AnyStep(AnyStep(AnyStep(t, a), b), c)
  {
    hide AnyStep;
    assert [a, b, c][1..] == [b, c] && [b, c][1..] == [c] && [c][1..] == [];
    assert AnyAfter(AnyStep(AnyStep(AnyStep(t, a), b), c), []) == AnyStep(AnyStep(AnyStep(t, a), b), c);
    assert AnyAfter(AnyStep(AnyStep(t, a), b), [c]) == AnyStep(AnyStep(AnyStep(t, a), b), c);
  }

  lemma TwoLines(a: Message, b: Message, chunk: Message)
    requires LF !in a && LF !in b && chunk == EncodeAll(Line, [a, b]) && |chunk| <= CAPACITY
    ensures var s := Step(Init(Line), Read(chunk));
            && s.proto == Line && s.open && !s.faulted && s.queue == [] && s.writing == [] && s.wire == []
            && s.delivered == [a, b] && s.posted == [Echo(a), Echo(b)]
  {
    ProcessesBoth(a, b, chunk);
    hide Process, EncodeAll;
    assert [] + chunk == chunk && [] + [a, b] == [a, b];
    assert [] + Responses([a, b]) == [Echo(a), Echo(b)];
  }

  lemma ProcessesBoth(a: Message, b: Message, chunk: Message)
    requires LF !in a && LF !in b && chunk == EncodeAll(Line, [a, b])
    ensures Process(Line, chunk) == Done([a, b], |chunk|)
  {
    hide Parse, Rest, EncodeAll, CanonicalAll;
    LineRoundTripExactly([a, b]);
    StreamRoundTrip(Line, [a, b]);
  }

  /** Of two posted echoes the second runs first and is written. */
  lemma BothPosted(s: State, a: Message, b: Message)
    requires s.proto == Line && s.open && !s.faulted && s.queue == [] && s.writing == [] && s.wire == []
    requires s.delivered == [a, b] && s.posted == [Echo(a), Echo(b)]
    ensures var t := AnyStep(AnyStep(Session(s, []), RunAt(1)), Other(WriteDone));
            && t.state.proto == Line && t.state.delivered == [a, b]
            && t.state.wire == Encode(Line, Echo(b))
  {
    hide Encode;
    var bytes := Encode(Line, Echo(b));
    SecondRuns(s, Echo(a), Echo(b));
    var t := AnyStep(Session(s, []), RunAt(1));
    assert t.state.writing == [bytes] && t.state.wire == [] && Enabled(t.state, WriteDone);
    hide Fetched, RunStep;
    assert AnyStep(t, Other(WriteDone)) == t.(state := WrittenStep(t.state));
    assert [] + bytes == bytes;
  }

  lemma SecondRuns(s: State, a: Message, b: Message)
    requires s.proto == Line && !s.faulted && s.queue == [] && s.writing == [] && s.posted == [a, b]
    ensures var t, u := AnyStep(Session(s, []), RunAt(1)), Encode(Line, b);
            t.state == s.(posted := [a], queue := [u], writing := [u])
  {
    hide Encode;
    assert Fetched(s.posted, 1) == [b, a];
    assert [] + [Encode(Line, b)] == [Encode(Line, b)];
  }

  lemma SwappedIsNoPrefix(a: Message, b: Message)
    requires LF !in a && LF !in b && a != b
    ensures !(Encode(Line, Echo(b)) <= EncodeAll(Line, Responses([a, b])))
  {
    var owed := Responses([a, b]);
    assert owed == [Echo(a), Echo(b)] && LF !in Echo(a) && LF !in Echo(b);
    assert Echo(a)[6..] == a && Echo(b)[6..] == b;
    EncodeOne(Line, Echo(b));
    StreamRoundTrip(Line, [Echo(b)]);
    StreamRoundTrip(Line, owed);
    hide Parse, Encode, EncodeAll;
    assert CanonicalAll(Line, [Echo(b)])[0] == Echo(b) && CanonicalAll(Line, owed)[0] == Echo(a);
    if Encode(Line, Echo(b)) <= EncodeAll(Line, owed) {
      ParseOfPrefix(Line, Encode(Line, Echo(b)), EncodeAll(Line, owed));
    }
  }
}
