/** No stack event is lost or delivered twice, over any suspension. */
module SdhEvents {
  import opened SdhModel
  import opened Sdh
  import opened SdhHistory

  /** What one delivery means to an observer of a source. */
  function Single(d: Delivery, source: nat, observer: nat): seq<int> {
    if d.source == source && d.observer == observer then [d.event] else []
  }

  /** The events one observer has received from one source, in order. */
  function Received(log: seq<Delivery>, source: nat, observer: nat): seq<int> {
    if log == [] then []
    else
      var last := log[|log| - 1];
      Received(log[..|log| - 1], source, observer) + Single(last, source, observer)
  }

  lemma {:induction false} ReceivedConcat(a: seq<Delivery>, b: seq<Delivery>, source: nat, observer: nat)
    ensures Received(a + b, source, observer) == Received(a, source, observer) + Received(b, source, observer)
  {
    hide Single;
    if b == [] {
      assert a + b == a;
    } else {
      ReceivedConcat(a, b[..|b| - 1], source, observer);
      assert (a + b)[..|a + b| - 1] == a + b[..|b| - 1];
    }
  }

  /** What is received from the two parts of a log. */
  lemma ReceivedParts(log: seq<Delivery>, a: seq<Delivery>, b: seq<Delivery>, source: nat, observer: nat)
    requires log == a + b
    ensures Received(log, source, observer) == Received(a, source, observer) + Received(b, source, observer)
  {
    ReceivedConcat(a, b, source, observer);
  }

  lemma ReceivedSnoc(log: seq<Delivery>, d: Delivery, source: nat, observer: nat)
    ensures Received(log + [d], source, observer) == Received(log, source, observer) + Single(d, source, observer)
  {
    assert (log + [d])[..|log|] == log;
  }

  /** The events of source j, for an observer of that source. */
  function Own(j: nat, queue: seq<int>, n: nat, source: nat, observer: nat): seq<int> {
    if j == source && observer < n then queue else []
  }

  lemma EventStep(j: nat, event: int, n: nat)
    ensures EventLog(j, event, n + 1) == EventLog(j, event, n) + [Delivery(j, event, n)]
  {
  }

  lemma OwnStep(j: nat, event: int, n: nat, source: nat, observer: nat)
    ensures Own(j, [event], n + 1, source, observer)
      == Own(j, [event], n, source, observer) + Single(Delivery(j, event, n), source, observer)
  {
  }

  lemma ReceivedOnce(j: nat, event: int, n: nat, source: nat, observer: nat)
    requires Received(EventLog(j, event, n), source, observer) == Own(j, [event], n, source, observer)
    ensures Received(EventLog(j, event, n + 1), source, observer) == Own(j, [event], n + 1, source, observer)
  {
    hide Received, EventLog, Own, Single;
    EventStep(j, event, n);
    OwnStep(j, event, n, source, observer);
    ReceivedSnoc(EventLog(j, event, n), Delivery(j, event, n), source, observer);
  }

  lemma NobodyTold(j: nat, event: int, source: nat, observer: nat)
    ensures Received(EventLog(j, event, 0), source, observer) == Own(j, [event], 0, source, observer)
  {
  }

  /** Each observer gets the event once. */
  lemma {:induction false} ReceivedEvent(j: nat, event: int, n: nat, source: nat, observer: nat)
    ensures Received(EventLog(j, event, n), source, observer) == Own(j, [event], n, source, observer)
  {
    hide Received, EventLog, Own;
    NobodyTold(j, event, source, observer);
    if n == 0 {
    } else {
      ReceivedEvent(j, event, n - 1, source, observer);
      ReceivedOnce(j, event, n - 1, source, observer);
    }
  }

  lemma DrainStep(j: nat, front: seq<int>, event: int, n: nat)
    ensures DrainLog(j, front + [event], n) == DrainLog(j, front, n) + EventLog(j, event, n)
  {
    assert (front + [event])[..|front|] == front;
  }

  lemma {:induction false} ReceivedQueue(j: nat, queue: seq<int>, n: nat, source: nat, observer: nat)
    ensures Received(DrainLog(j, queue, n), source, observer) == Own(j, queue, n, source, observer)
  {
    if queue == [] {
      return;
    }
    hide Received, EventLog, DrainLog;
    var front, event := queue[..|queue| - 1], queue[|queue| - 1];
    assert queue == front + [event];
    DrainStep(j, front, event, n);
    ReceivedParts(DrainLog(j, queue, n), DrainLog(j, front, n), EventLog(j, event, n), source, observer);
    ReceivedQueue(j, front, n, source, observer);
    ReceivedEvent(j, event, n, source, observer);
  }

  lemma PollStep(queues: seq<seq<int>>, observers: seq<nat>, k: nat)
    requires k < |queues| <= |observers|
    ensures PollLog(queues, observers, k + 1) == PollLog(queues, observers, k) + DrainLog(k, queues[k], observers[k])
  {
  }

  /** What one observer gets when the first k sources are drained. */
  function Share(queues: seq<seq<int>>, observers: seq<nat>, k: nat, source: nat, observer: nat): seq<int>
    requires k <= |queues| <= |observers|
  {
    if source < k && observer < observers[source] then queues[source] else []
  }

  lemma ShareStep(queues: seq<seq<int>>, observers: seq<nat>, k: nat, source: nat, observer: nat)
    requires k < |queues| <= |observers|
    ensures Share(queues, observers, k + 1, source, observer)
      == Share(queues, observers, k, source, observer)
       + Own(k, queues[k], observers[k], source, observer)
  {
  }

  lemma ReceivedOneMore(queues: seq<seq<int>>, observers: seq<nat>, k: nat, source: nat, observer: nat)
    requires k < |queues| <= |observers|
    requires Received(PollLog(queues, observers, k), source, observer) == Share(queues, observers, k, source, observer)
    ensures Received(PollLog(queues, observers, k + 1), source, observer)
      == Share(queues, observers, k + 1, source, observer)
  {
    hide Received, DrainLog, PollLog, Share, Own;
    PollStep(queues, observers, k);
    ShareStep(queues, observers, k, source, observer);
    ReceivedParts(PollLog(queues, observers, k + 1), PollLog(queues, observers, k),
                  DrainLog(k, queues[k], observers[k]), source, observer);
    ReceivedQueue(k, queues[k], observers[k], source, observer);
  }

  lemma NothingPolled(queues: seq<seq<int>>, observers: seq<nat>, source: nat, observer: nat)
    requires |queues| <= |observers|
    ensures Received(PollLog(queues, observers, 0), source, observer) == Share(queues, observers, 0, source, observer)
  {
  }

  lemma {:induction false} ReceivedPoll(queues: seq<seq<int>>, observers: seq<nat>, k: nat, source: nat, observer: nat)
    requires k <= |queues| <= |observers|
    ensures Received(PollLog(queues, observers, k), source, observer) == Share(queues, observers, k, source, observer)
  {
    hide Received, PollLog, Share;
    NothingPolled(queues, observers, source, observer);
    if k == 0 {
    } else {
      ReceivedPoll(queues, observers, k - 1, source, observer);
      ReceivedOneMore(queues, observers, k - 1, source, observer);
    }
  }

  lemma {:induction false} DrainLength(source: nat, queue: seq<int>, n: nat)
    ensures |DrainLog(source, queue, n)| == |queue| * n
  {
    if queue == [] {
    } else {
      DrainLength(source, queue[..|queue| - 1], n);
      assert (|queue| - 1) * n + n == |queue| * n;
    }
  }

  lemma Multiply(a: nat, b: nat, n: nat)
    requires a <= b
    ensures a * n <= b * n
  {
  }

  lemma IndexBelow(i: nat, k: nat, n: nat, m: nat)
    requires i < m && k < n
    ensures i * n + k < m * n && (m - 1) * n + n == m * n
  {
    assert i * n <= (m - 1) * n by { Multiply(i, m - 1, n); }
  }

  /** The deliveries are grouped by event and ordered by observer within an event. */
  lemma DrainInOrder(source: nat, queue: seq<int>, n: nat, i: nat, k: nat)
    requires i < |queue| && k < n
    ensures |DrainLog(source, queue, n)| == |queue| * n && i * n + k < |queue| * n
    ensures DrainLog(source, queue, n)[i * n + k] == Delivery(source, queue[i], k)
    decreases |queue|
  {
    var front := queue[..|queue| - 1];
    DrainLength(source, queue, n);
    DrainLength(source, front, n);
    IndexBelow(i, k, n, |queue|);
    if |front| <= i {
    } else {
      IndexBelow(i, k, n, |front|);
      DrainInOrder(source, front, n, i, k);
    }
  }

  // ---------------------------------------------------------------- runs

  /** Every event of the session was handed to every observer in order, or is still queued. */
  ghost predicate Conserved(s: State) {
    WellFormed(s)
    && (forall j, i {:trigger Received(s.deliveries[s.session..], j, i)} ::
          0 <= j < |s.queues| && 0 <= i < s.observers[j] ==>
          Received(s.deliveries[s.session..], j, i) + s.queues[j] == s.arrived[j])
    && (s.irqOn && !s.irqPending ==> forall j :: 0 <= j < |s.queues| ==> s.queues[j] == [])
  }

  lemma NewSessionConserves(s: State)
    requires WellFormed(s) && s.session == |s.deliveries|
    requires s.queues == NoEvents(|s.observers|) && s.arrived == NoEvents(|s.observers|)
    ensures Conserved(s)
  {
    assert s.deliveries[s.session..] == [];
    assert forall j, i :: Received([], j, i) == [];
  }

  lemma PollConserves(s: State)
    requires Conserved(s)
    ensures Conserved(Polled(s))
    ensures forall j :: 0 <= j < |s.queues| ==> Polled(s).queues[j] == []
  {
    var s' := Polled(s);
    var log := PollLog(s.queues, s.observers, |s.queues|);
    assert s'.deliveries[s.session..] == s.deliveries[s.session..] + log;
    forall j, i | 0 <= j < |s.queues| && 0 <= i < s.observers[j]
      ensures Received(s'.deliveries[s.session..], j, i) == s.arrived[j]
    {
      ReceivedConcat(s.deliveries[s.session..], log, j, i);
      ReceivedPoll(s.queues, s.observers, |s.queues|, j, i);
      assert Received(s.deliveries[s.session..], j, i) + s.queues[j] == s.arrived[j];
    }
  }

  lemma ArriveConserves(s: State, source: nat, event: int, latched: bool)
    requires Conserved(s)
    ensures Conserved(Arrives(s, source, event, latched))
  {
    var s' := Arrives(s, source, event, latched);
    forall j, i | 0 <= j < |s.queues| && 0 <= i < s.observers[j]
      ensures Received(s'.deliveries[s'.session..], j, i) + s'.queues[j] == s'.arrived[j]
    {
      assert Received(s.deliveries[s.session..], j, i) + s.queues[j] == s.arrived[j];
      if s.stackUp && j == source {
        assert Received(s.deliveries[s.session..], j, i) + (s.queues[j] + [event])
          == Received(s.deliveries[s.session..], j, i) + s.queues[j] + [event];
      }
    }
  }

  /** States with the same events and interrupt bits. */
  predicate SameEvents(s: State, t: State) {
    s.queues == t.queues && s.arrived == t.arrived && s.deliveries == t.deliveries && s.session == t.session
    && s.observers == t.observers && s.irqOn == t.irqOn && s.irqPending == t.irqPending
  }

  lemma SameEventsConserve(s: State, t: State)
    requires Conserved(s) && SameEvents(s, t)
    ensures Conserved(t)
  {
    assert forall j, i {:trigger Received(t.deliveries[t.session..], j, i)} ::
        0 <= j < |s.queues| && 0 <= i < s.observers[j] ==>
        Received(s.deliveries[s.session..], j, i) + s.queues[j] == s.arrived[j];
  }

  predicate FreshEvents(s: State) {
    s.session == |s.deliveries| && s.queues == NoEvents(|s.observers|) && s.arrived == NoEvents(|s.observers|)
  }

  lemma DisableSession(s: State, code: int)
    ensures SameEvents(s, DisableStack(s, code).0) || FreshEvents(DisableStack(s, code).0)
  {
  }

  lemma EnableSession(s: State, code: int)
    ensures SameEvents(s, EnableStack(s, code).0) || FreshEvents(EnableStack(s, code).0)
  {
  }

  /** A request leaves the events alone, unless it succeeds and a new session begins. */
  lemma RequestSession(s: State, code: int)
    ensures SameEvents(s, EnableRequested(s, code).0) || FreshEvents(EnableRequested(s, code).0)
    ensures SameEvents(s, DisableRequested(s, code).0) || FreshEvents(DisableRequested(s, code).0)
  {
    hide EnableStack, DisableStack, AskAll;
    EnableSession(Begin(s, EnableRequest).1, code);
    DisableSession(Begin(s, DisableRequest).1, code);
  }

  lemma SessionConserves(s: State, t: State)
    requires Conserved(s) && WellFormed(t) && (SameEvents(s, t) || FreshEvents(t))
    ensures Conserved(t)
  {
    if SameEvents(s, t) {
      SameEventsConserve(s, t);
    } else {
      NewSessionConserves(t);
    }
  }

  lemma RequestConserves(s: State, code: int)
    requires Conserved(s)
    ensures Conserved(EnableRequested(s, code).0) && Conserved(DisableRequested(s, code).0)
  {
    assert WellFormed(s);
    RequestSession(s, code);
    hide Conserved, SameEvents, FreshEvents, EnableRequested, DisableRequested;
    SessionConserves(s, EnableRequested(s, code).0);
    SessionConserves(s, DisableRequested(s, code).0);
  }

  lemma StepConserves(s: State, op: Op)
    requires Conserved(s)
    ensures Conserved(Step(s, op))
  {
    match op
    case OpEnable(code) => RequestConserves(s, code);
    case OpDisable(code) => RequestConserves(s, code);
    case OpContinue(code) => RequestConserves(s, code);
    case OpSuspend =>
    case OpResume =>
    case OpPoll => PollConserves(s);
    case OpInterrupt =>
      if s.irqOn && s.irqPending {
        PollConserves(s);
        assert Step(s, op) == Polled(s).(irqPending := false);
      }
    case OpArrive(source, event, latched) => ArriveConserves(s, source, event, latched);
  }

  /**
   * In every run: what an observer has received in this session, followed by what its source
   * still holds, is what has arrived; and while the interrupt is on, it is pending whenever
   * some source holds an event.
   */
  lemma {:induction false} NothingLost(answers: seq<seq<bool>>, observers: seq<nat>, ops: seq<Op>)
    ensures Conserved(Run(Initial(answers, observers), ops))
  {
    if ops == [] {
      NewSessionConserves(Initial(answers, observers));
    } else {
      NothingLost(answers, observers, ops[..|ops| - 1]);
      StepConserves(Run(Initial(answers, observers), ops[..|ops| - 1]), ops[|ops| - 1]);
    }
  }

  /**
   * Resuming lets the next interrupt deliver everything that arrived while the module was
   * suspended, even if the disabled interrupt did not remember a single signal.
   */
  lemma ResumeDelivers(answers: seq<seq<bool>>, observers: seq<nat>, ops: seq<Op>, j: nat, i: nat)
    requires var s := Run(Initial(answers, observers), ops);
      s.enabled && s.suspended && j < |s.queues| && i < s.observers[j]
    ensures var s := Run(Initial(answers, observers), ops);
      var s' := Step(Step(s, OpResume), OpInterrupt);
      s'.queues[j] == [] && Received(s'.deliveries[s.session..], j, i) == s.arrived[j] && !IsSuspended(s')
  {
    var s := Run(Initial(answers, observers), ops);
    NothingLost(answers, observers, ops);
    var r := Step(s, OpResume);
    StepConserves(s, OpResume);
    StepConserves(r, OpInterrupt);
    var p := r.(irqPending := false);
    assert Step(r, OpInterrupt) == Polled(p);
    assert Polled(p).queues == NoEvents(|p.queues|);
    assert Received(Polled(p).deliveries[s.session..], j, i) + [] == s.arrived[j];
  }
}
