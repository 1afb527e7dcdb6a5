/** The UDP client with its mutex made explicit: producers, the worker's loop and `stop` work on a
    flag, a queue and a lock, and every state they leave is the one the step system of module
    UdpModel reaches by the steps taken so far. */
module UdpClients {
  import opened Bytes
  import opened UdpModel

  class UdpClient {
    var run: bool
    var msgQueue: seq<Message>

    /** Whether the worker holds the mutex; producers release it before they return. */
    var locked: bool

    ghost var worker: Worker
    ghost var enqueued: seq<Message>
    ghost var taken: seq<Message>
    ghost var attempts: seq<Message>
    ghost var history: seq<Event>

    ghost function Current(): State
      reads this
    {
      State(run, msgQueue, worker, enqueued, taken, attempts)
    }

    /** The state is the one reached by its history, and the mutex is held where the worker stands
        inside its critical section. */
    ghost predicate Valid()
      reads this
    {
      Current() == After(Init(), history) && (locked <==> !MutexFree(Current()))
    }

    constructor ()
      ensures Valid() && history == []
    {
      run, msgQueue, locked, worker := false, [], false, NotStarted;
      enqueued, taken, attempts, history := [], [], [], [];
    }

    /** One more event of the history. */
    ghost method Happened(e: Event, before: State)
      requires before == After(Init(), history) && Current() == Step(before, e)
      requires locked <==> !MutexFree(Current())
      modifies this`history
      ensures Valid() && history == old(history) + [e]
    {
      AfterSnoc(Init(), history, e);
      history := history + [e];
    }

    /** start: the flag is set before the worker exists, so that it cannot leave at once. */
    method StartWorker()
      requires Valid() && worker.NotStarted?
      modifies this
      ensures Valid() && history == old(history) + [Start]
      ensures run && !locked && worker.Idle? && msgQueue == old(msgQueue)
    {
      ghost var before := Current();
      run := true;
      worker := Idle;
      Happened(Start, before);
    }

    /** send, which blocks while the worker holds the mutex: the message is queued behind all others
        and a blocked worker is woken. */
    method Send(data: Message)
      requires Valid() && !locked
      modifies this
      ensures Valid() && history == old(history) + [Event.Send(data)] && !locked
      ensures enqueued == old(enqueued) + [data] == taken + msgQueue && taken == old(taken)
      ensures !worker.Waiting?
    {
      ghost var before := Current();
      RunKeepsInv(Init(), history);
      locked := true;
      msgQueue := msgQueue + [data];
      enqueued := enqueued + [data];
      worker := Notified(worker);
      locked := false;
      Happened(Event.Send(data), before);
      RunKeepsInv(Init(), history);
    }

    /** std::unique_lock's constructor, or the end of a wait. */
    method Acquire()
      requires Valid() && !locked && (worker.Idle? || worker.Woken?)
      modifies this
      ensures Valid() && locked && worker.Checking? && Current() == old(Current()).(worker := Checking)
      ensures history == old(history) + [Lock]
    {
      ghost var before := Current();
      locked := true;
      worker := Checking;
      Happened(Lock, before);
    }

    /** The predicate of cv_.wait, under the mutex. */
    method EvaluatePredicate() returns (go: bool)
      requires Valid() && worker.Checking?
      modifies this
      ensures Valid() && go == (msgQueue != [] || !run) && locked
      ensures Current() == old(Current()).(worker := if go then Deciding else AboutToWait)
      ensures old(history) <= history
    {
      ghost var before := Current();
      go := msgQueue != [] || !run;
      worker := if go then Deciding else AboutToWait;
      Happened(Evaluate, before);
    }

    /** Blocking, which releases the mutex; `stop` may have come in between. */
    method BlockOnCondition()
      requires Valid() && worker.AboutToWait?
      modifies this
      ensures Valid() && !locked && Current() == old(Current()).(worker := Waiting)
      ensures msgQueue == []
      ensures old(history) <= history
    {
      ghost var before := Current();
      RunKeepsInv(Init(), history);
      locked := false;
      worker := Waiting;
      Happened(Block, before);
    }

    /** The rest of the critical section: leave if stopped, otherwise take the front. */
    method TakeFront() returns (msg: Message, stopped: bool)
      requires Valid() && worker.Deciding?
      modifies this
      ensures Valid() && !locked && stopped == !run && run == old(run) && enqueued == old(enqueued)
      ensures attempts == old(attempts)
      ensures stopped ==> worker.Finished? && msgQueue == old(msgQueue)
      ensures !stopped ==> worker == InHand(msg)
      ensures old(msgQueue) != [] && !stopped ==> old(msgQueue) == [msg] + msgQueue
      ensures old(history) <= history
    {
      ghost var before := Current();
      msg := [];
      stopped := !run;
      if stopped {
        worker := Finished;
      } else {
        if msgQueue != [] {
          msg := msgQueue[0];
          msgQueue := msgQueue[1..];
          taken := taken + [msg];
        }
        worker := InHand(msg);
      }
      locked := false;
      Happened(Decide, before);
    }

    /** Outside the mutex: a non-empty message is sent; errors are only logged. */
    method AttemptSend(msg: Message)
      requires Valid() && worker == InHand(msg)
      modifies this
      ensures Valid() && !locked && worker.Idle? && run == old(run)
      ensures msgQueue == old(msgQueue) && enqueued == old(enqueued)
      ensures old(history) <= history
    {
      ghost var before := Current();
      if msg != [] {
        attempts := attempts + [msg];
      }
      worker := Idle;
      Happened(Attempt, before);
    }

    /** The worker's loop, from its start or a wake-up until it blocks or leaves, with nobody else
        in between: a running client attempts every queued message, in order, before it blocks on
        an empty queue; a stopped one leaves at once and drops what is queued. */
    method Work()
      requires Valid() && (worker.Idle? || worker.Woken?)
      modifies this
      ensures Valid() && !locked && old(history) <= history
      ensures run == old(run) && enqueued == old(enqueued)
      ensures run ==> worker.Waiting? && msgQueue == []
                      && attempts == old(attempts) + NonEmpty(old(msgQueue))
      ensures !run ==> worker.Finished? && msgQueue == old(msgQueue) && attempts == old(attempts)
    {
      RunKeepsInv(Init(), history);
      ghost var before := Current();
      hide NonEmpty, After, Inv;
      while true
        invariant Valid() && (worker.Idle? || worker.Woken?) && old(history) <= history
        invariant run == old(run) && enqueued == old(enqueued)
        invariant !run ==> msgQueue == old(msgQueue) && attempts == old(attempts)
        decreases |msgQueue|
      {
        Acquire();
        var go := EvaluatePredicate();
        if !go {
          BlockOnCondition();
          RunKeepsInv(Init(), history);
          DrainedIsAttempted(before, Current());
          return;
        }
        var msg, stopped := TakeFront();
        if stopped {
          return;
        }
        AttemptSend(msg);
      }
    }

    /** stop, up to the join: from here on the worker can block un-notified if and only if it stood
        between its test of the flag and its blocking. */
    method Stop()
      requires Valid() && !worker.NotStarted?
      modifies this
      ensures Valid() && history == old(history) + [ClearRun, NotifyAll]
      ensures !run && !worker.Waiting? && msgQueue == old(msgQueue) && locked == old(locked)
      ensures (exists events :: After(Current(), events).worker.Waiting?) <==> old(worker).AboutToWait?
    {
      ghost var before := Current();
      run := false;
      Happened(ClearRun, before);
      before := Current();
      worker := Notified(worker);
      Happened(NotifyAll, before);
      StopIsMissedExactly(before);
    }
  }
}
