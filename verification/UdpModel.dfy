/** The UDP client as a step system: one worker, any number of producers, a mutex, a condition
    variable, a queue, and the two unlocked steps of `stop`. */
module UdpModel {
  import opened Bytes

  /** Where the worker thread is. In Checking, Deciding and AboutToWait it holds the mutex; in
      Waiting it is blocked on the condition variable and nobody has notified it. */
  datatype Worker =
    | NotStarted
    | Idle
    | Checking
    | Deciding
    | AboutToWait
    | Waiting
    | Woken
    | InHand(msg: Message)
    | Finished

  /** The last three fields are history: everything enqueued, everything taken off the queue,
      and the send attempts made. */
  datatype State = State(
    run: bool, queue: seq<Message>, worker: Worker,
    enqueued: seq<Message>, taken: seq<Message>, attempts: seq<Message>)

  datatype Event =
    | Start
    | Lock
    | Evaluate
    | Decide
    | Block
    | SpuriousWakeup
    | Attempt
    | Send(data: Message)
    | ClearRun
    | NotifyAll

  function Init(): State { State(false, [], NotStarted, [], [], []) }

  predicate MutexFree(s: State) {
    !s.worker.Checking? && !s.worker.Deciding? && !s.worker.AboutToWait?
  }

  predicate Enabled(s: State, e: Event) {
    match e
    case Start => s.worker.NotStarted?
    case Lock => s.worker.Idle? || s.worker.Woken?
    case Evaluate => s.worker.Checking?
    case Decide => s.worker.Deciding?
    case Block => s.worker.AboutToWait?
    case SpuriousWakeup => s.worker.Waiting?
    case Attempt => s.worker.InHand?
    case Send(_) => MutexFree(s)
    case _ => true
  }

  function Notified(w: Worker): Worker { if w.Waiting? then Woken else w }

  /** After the wait: leave if stopped, otherwise take the front of the queue, if there is one. */
  function DecideStep(s: State): State {
    if !s.run then s.(worker := Finished)
    else if s.queue == [] then s.(worker := InHand([]))
    else s.(worker := InHand(s.queue[0]), queue := s.queue[1..], taken := s.taken + [s.queue[0]])
  }

  /** An event that is not enabled cannot happen; it leaves the state alone. */
  function Step(s: State, e: Event): State {
    if !Enabled(s, e) then s
    else
      match e
      case Start => s.(run := true, worker := Idle)
      case Lock => s.(worker := Checking)
      case Evaluate => s.(worker := if s.queue != [] || !s.run then Deciding else AboutToWait)
      case Decide => DecideStep(s)
      case Block => s.(worker := Waiting)
      case SpuriousWakeup => s.(worker := Woken)
      case Attempt =>
        s.(worker := Idle,
           attempts := if s.worker.msg == [] then s.attempts else s.attempts + [s.worker.msg])
      case Send(data) =>
        s.(queue := s.queue + [data], enqueued := s.enqueued + [data], worker := Notified(s.worker))
      case ClearRun => s.(run := false)
      case NotifyAll => s.(worker := Notified(s.worker))
  }

  function After(s: State, events: seq<Event>): State
    decreases |events|
  {
    if events == [] then s else After(Step(s, events[0]), events[1..])
  }

  lemma {:induction false} AfterSnoc(s: State, events: seq<Event>, e: Event)
    ensures After(s, events + [e]) == Step(After(s, events), e)
    decreases |events|
  {
    if events == [] {
      assert [e][1..] == [] && [] + [e] == [e];
    } else {
      assert (events + [e])[1..] == events[1..] + [e];
      AfterSnoc(Step(s, events[0]), events[1..], e);
    }
  }

  function NonEmpty(ms: seq<Message>): seq<Message> {
    if ms == [] then []
    else (if ms[0] == [] then [] else [ms[0]]) + NonEmpty(ms[1..])
  }

  lemma {:induction false} NonEmptyConcat(a: seq<Message>, b: seq<Message>)
    ensures NonEmpty(a + b) == NonEmpty(a) + NonEmpty(b)
  {
    if a == [] {
      assert a + b == b;
    } else {
      var first := if a[0] == [] then [] else [a[0]];
      NonEmptyConcat(a[1..], b);
      assert NonEmpty(a) == first + NonEmpty(a[1..]);
      assert (a + b)[1..] == a[1..] + b && (a + b)[0] == a[0];
      assert NonEmpty(a + b) == first + NonEmpty(a[1..] + b);
    }
  }

  function Pending(w: Worker): seq<Message> {
    if w.InHand? then NonEmpty([w.msg]) else []
  }

  predicate Inv(s: State) {
    && s.taken + s.queue == s.enqueued
    && s.attempts + Pending(s.worker) == NonEmpty(s.taken)
    && (s.worker.Waiting? || s.worker.AboutToWait? ==> s.queue == [])
  }

  lemma StepKeepsInv(s: State, e: Event)
    requires Inv(s)
    ensures Inv(Step(s, e))
  {
    if Enabled(s, e) {
      match e
      case Send(data) => assert s.taken + (s.queue + [data]) == (s.taken + s.queue) + [data];
      case Decide => DecideKeepsInv(s);
      case Attempt => AttemptKeepsInv(s);
      case _ => hide NonEmpty;
    }
  }

  lemma DecideKeepsInv(s: State)
    requires Inv(s) && s.worker.Deciding?
    ensures Inv(DecideStep(s))
  {
    if s.run && s.queue != [] {
      NonEmptyConcat(s.taken, [s.queue[0]]);
      assert s.queue == [s.queue[0]] + s.queue[1..];
    } else {
      assert NonEmpty([[]]) == NonEmpty([[]][1..]) == [];
    }
  }

  lemma AttemptKeepsInv(s: State)
    requires Inv(s) && s.worker.InHand?
    ensures Inv(Step(s, Attempt))
  {
    var m := s.worker.msg;
    assert NonEmpty([m]) == if m == [] then [] else [m] by {
      assert [m][1..] == [];
    }
  }

  lemma {:induction false} RunKeepsInv(s: State, events: seq<Event>)
    requires Inv(s)
    ensures Inv(After(s, events))
    decreases |events|
  {
    if events != [] {
      StepKeepsInv(s, events[0]);
      RunKeepsInv(Step(s, events[0]), events[1..]);
    }
  }

  /** In every run: nothing enqueued is lost, duplicated or reordered; the attempts made are the
      non-empty messages taken, save one in hand; and a worker blocked without a notification
      faces an empty queue, so that no producer's wake-up is ever lost. */
  lemma UdpSafety(events: seq<Event>)
    ensures var s := After(Init(), events);
            && s.taken + s.queue == s.enqueued
            && s.attempts + Pending(s.worker) == NonEmpty(s.taken)
            && (s.worker.Waiting? ==> s.queue == [])
  {
    RunKeepsInv(Init(), events);
  }

  /** The messages of the sends that get the mutex. */
  function SentIn(s: State, events: seq<Event>): seq<Message>
    decreases |events|
  {
    if events == [] then []
    else (if events[0].Send? && MutexFree(s) then [events[0].data] else []) +
         SentIn(Step(s, events[0]), events[1..])
  }

  /** What is enqueued is what is sent, in order, and a started client runs until it is stopped. */
  lemma {:induction false} HistoryIsOfEvents(s: State, events: seq<Event>)
    ensures After(s, events).enqueued == s.enqueued + SentIn(s, events)
    ensures !s.worker.NotStarted? ==> (After(s, events).run <==> s.run && ClearRun !in events)
    ensures s.worker.NotStarted? ==> Step(s, Start).run && Step(s, Start).worker.Idle?
    decreases |events|
  {
    if events != [] {
      EventHistory(s, events[0]);
      assert ClearRun in events <==> events[0] == ClearRun || ClearRun in events[1..];
      hide Step;
      HistoryIsOfEvents(Step(s, events[0]), events[1..]);
    }
  }

  lemma EventHistory(s: State, e: Event)
    ensures Step(s, e).enqueued == s.enqueued + (if e.Send? && MutexFree(s) then [e.data] else [])
    ensures !s.worker.NotStarted? ==>
              !Step(s, e).worker.NotStarted? && (Step(s, e).run <==> s.run && e != ClearRun)
  {
  }

  /** Between two states with nothing in hand, an emptied queue has been attempted, in order. */
  lemma DrainedIsAttempted(s: State, t: State)
    requires Inv(s) && Inv(t) && !s.worker.InHand? && !t.worker.InHand?
    requires t.queue == [] && t.enqueued == s.enqueued
    ensures t.attempts == s.attempts + NonEmpty(s.queue)
  {
    NonEmptyConcat(s.taken, s.queue);
    assert t.taken == t.taken + [] && s.attempts + [] == s.attempts && t.attempts + [] == t.attempts;
  }

  /** A round of the worker's loop: stopped, it leaves and takes nothing; otherwise it takes and
      attempts the front of the queue, or blocks if there is none, until a notification or a
      spurious wake-up starts the next round. */
  lemma OneRound(s: State)
    requires s.worker.Idle? || s.worker.Woken?
    ensures !s.run ==> After(s, [Lock, Evaluate, Decide]) == s.(worker := Finished)
    ensures s.run && s.queue != [] ==>
              After(s, [Lock, Evaluate, Decide, Attempt]) ==
              s.(worker := Idle, queue := s.queue[1..], taken := s.taken + [s.queue[0]],
                 attempts := s.attempts + (if s.queue[0] == [] then [] else [s.queue[0]]))
    ensures s.run && s.queue == [] ==>
              && After(s, [Lock, Evaluate, Block]) == s.(worker := Waiting)
              && After(s, [Lock, Evaluate, Block, SpuriousWakeup]) == s.(worker := Woken)
              && After(s, [Lock, Evaluate, Block, NotifyAll]) == s.(worker := Woken)
  {
    ThreeSteps(s, Lock, Evaluate, Decide);
    ThreeSteps(s, Lock, Evaluate, Block);
    AfterSnoc(s, [Lock, Evaluate, Decide], Attempt);
    AfterSnoc(s, [Lock, Evaluate, Block], SpuriousWakeup);
    AfterSnoc(s, [Lock, Evaluate, Block], NotifyAll);
    assert [Lock, Evaluate, Decide] + [Attempt] == [Lock, Evaluate, Decide, Attempt];
    assert [Lock, Evaluate, Block] + [SpuriousWakeup] == [Lock, Evaluate, Block, SpuriousWakeup];
    assert [Lock, Evaluate, Block] + [NotifyAll] == [Lock, Evaluate, Block, NotifyAll];
    hide After;
  }

  lemma ThreeSteps(s: State, a: Event, b: Event, c: Event)
    ensures After(s, [a, b, c]) == Step(Step(Step(s, a), b), c)
  {
    hide Step;
    assert [a, b, c][1..] == [b, c] && [b, c][1..] == [c] && [c][1..] == [];
    assert After(Step(Step(Step(s, a), b), c), []) == Step(Step(Step(s, a), b), c);
    assert After(Step(Step(s, a), b), [c]) == Step(Step(Step(s, a), b), c);
  }

  /** A stopped client whose worker is past the wait never waits again. */
  lemma {:induction false} StoppedNeverWaits(s: State, events: seq<Event>)
    requires !s.run && !s.worker.NotStarted? && !s.worker.AboutToWait? && !s.worker.Waiting?
    ensures !After(s, events).worker.Waiting?
    decreases |events|
  {
    if events != [] {
      StoppedNeverWaits(Step(s, events[0]), events[1..]);
    }
  }

  /** The wake-up of `stop`, by contrast, can be lost: its flag is not set under the mutex. After
      its notification the worker can block un-notified exactly when the notification fell between
      the worker's evaluation of the predicate and its blocking. */
  lemma StopIsMissedExactly(s: State)
    requires !s.run && !s.worker.NotStarted?
    ensures (exists events :: After(Step(s, NotifyAll), events).worker.Waiting?)
            <==> s.worker.AboutToWait?
  {
    var t := Step(s, NotifyAll);
    if s.worker.AboutToWait? {
      assert [Block][1..] == [];
      assert After(t, [Block]) == Step(t, Block);
      assert After(t, [Block]).worker.Waiting?;
    } else {
      forall events ensures !After(t, events).worker.Waiting? {
        StoppedNeverWaits(t, events);
      }
    }
  }

  /** And it is reachable. */
  lemma StopCanBeMissed()
    ensures After(Init(), [Start, Lock, Evaluate, ClearRun, NotifyAll, Block])
              == State(false, [], Waiting, [], [], [])
  {
  }
}
