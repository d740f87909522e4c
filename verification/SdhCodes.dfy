/** What callers of the SoftDevice handler are told, and what each operation leaves alone. */
module SdhCodes {
  import opened SdhModel
  import opened Sdh

  // ---------------------------------------------------------------- return codes

  /** The requests a caller can make. */
  datatype Call = CallEnable | CallDisable | CallContinue

  function Made(s: State, call: Call, stackCode: int): (r: (State, int))
    requires WellFormed(s)
  {
    match call
    case CallEnable => EnableRequested(s, stackCode)
    case CallDisable => DisableRequested(s, stackCode)
    case CallContinue => ContinueRequested(s, stackCode)
  }

  /** A call is refused outright when there is nothing to enable, to disable, or to continue. */
  predicate OutOfPlace(s: State, call: Call) {
    match call
    case CallEnable => s.enabled
    case CallDisable => !s.enabled
    case CallContinue => !s.continuing
  }

  /** The code that the stack returned last, if that is the last happening. */
  predicate StackRefused(history: seq<Happening>, code: int) {
    history != [] && code != NRF_SUCCESS
    && (history[|history| - 1] == StackEnable(code) || history[|history| - 1] == StackDisable(code))
  }

  predicate Blocked(history: seq<Happening>) {
    history != [] && history[|history| - 1].Asked? && !history[|history| - 1].granted
  }

  predicate Reported(history: seq<Happening>) {
    history != [] && history[|history| - 1].Notified?
  }

  /** What a request that is in place comes to. */
  ghost predicate ComesTo(s: State, r: (State, int), stackCode: int) {
    s.history < r.0.history
    && if Blocked(r.0.history) then r.1 == NRF_SUCCESS && r.0.enabled == s.enabled && r.0.continuing
       else if Reported(r.0.history) then r.1 == NRF_SUCCESS && r.0.enabled != s.enabled && !r.0.continuing
       else StackRefused(r.0.history, r.1) && r.1 == stackCode && !r.0.enabled && r.0.continuing
  }

  lemma DisableCodes(s: State, stackCode: int)
    requires WellFormed(s) && s.enabled
    ensures ComesTo(s, DisableRequested(s, stackCode), stackCode)
  {
    hide AskAll, NoEvents;
  }

  lemma EnableCodes(s: State, stackCode: int)
    requires WellFormed(s) && !s.enabled
    ensures ComesTo(s, EnableRequested(s, stackCode), stackCode)
  {
    hide AskAll, NoEvents;
  }

  lemma NothingHappens(s: State, stackCode: int)
    ensures s.enabled ==> EnableRequested(s, stackCode) == (s, NRF_ERROR_INVALID_STATE)
    ensures !s.enabled ==> DisableRequested(s, stackCode) == (s, NRF_ERROR_INVALID_STATE)
  {
  }

  /**
   * The code of every call, read off the history. A call out of place changes nothing and
   * answers invalid state. Any other call adds to the history, and it answers success exactly
   * if it was blocked, with the enabled flag as before, or if it reported the new state, with
   * the enabled flag turned; otherwise the stack refused, and the code is the stack's.
   */
  lemma CodesTellHistory(s: State, call: Call, stackCode: int)
    requires WellFormed(s)
    ensures var (s', code) := Made(s, call, stackCode);
      (OutOfPlace(s, call) <==> s'.history == s.history)
      && (OutOfPlace(s, call) ==> s' == s && code == NRF_ERROR_INVALID_STATE)
      && (!OutOfPlace(s, call) ==>
            s.history < s'.history
            && (code == NRF_SUCCESS <==> Blocked(s'.history) || Reported(s'.history))
            && (forall c :: c != NRF_SUCCESS ==> (code == c <==> StackRefused(s'.history, c)))
            && (Blocked(s'.history) ==> s'.enabled == s.enabled && s'.continuing)
            && (Reported(s'.history) ==> s'.enabled != s.enabled && !s'.continuing)
            && (code != NRF_SUCCESS ==> code == stackCode && !s'.enabled && s'.continuing))
  {
    hide EnableRequested, DisableRequested;
    if OutOfPlace(s, call) {
      NothingHappens(s, stackCode);
    } else {
      if s.enabled {
        DisableCodes(s, stackCode);
      } else {
        EnableCodes(s, stackCode);
      }
    }
  }

  // ---------------------------------------------------------------- the pass over the observers

  /** The first observer that refuses, or their number. */
  function FirstRefusal(answers: seq<seq<bool>>): (k: nat)
    ensures k <= |answers|
    ensures forall i :: 0 <= i < k ==> answers[i] == [] || answers[i][0]
    ensures k < |answers| ==> answers[k] != [] && !answers[k][0]
  {
    if answers == [] || (answers[0] != [] && !answers[0][0]) then 0 else 1 + FirstRefusal(answers[1..])
  }

  /** Exactly the observers up to the first one that refuses are asked, once each. */
  lemma {:induction false} AskedUpToRefusal(answers: seq<seq<bool>>)
    ensures var k := FirstRefusal(answers);
      var (granted, rest) := AskAll(answers);
      (granted <==> k == |answers|) && |rest| == |answers|
      && (forall i :: 0 <= i < |answers| ==> rest[i] == if i <= k then Later(answers[i]) else answers[i])
  {
    if answers == [] {
    } else {
      AskedUpToRefusal(answers[1..]);
      assert forall i :: 0 < i < |answers| ==> answers[i] == answers[1..][i - 1];
    }
  }

  // ---------------------------------------------------------------- suspension and events

  /** Suspending and resuming touch the interrupt and the flag alone, and do what the query says. */
  lemma SuspensionIsSeen(s: State)
    ensures IsSuspended(Suspended(s)) && (IsSuspended(Resumed(s)) <==> !s.enabled)
    ensures Suspended(s).(irqOn := s.irqOn, suspended := s.suspended) == s
    ensures Resumed(s).(irqOn := s.irqOn, irqPending := s.irqPending, suspended := s.suspended) == s
    ensures s.enabled ==> !Suspended(s).irqOn
    ensures s.enabled && s.suspended ==> Resumed(s).irqOn && Resumed(s).irqPending
    ensures !s.enabled || !s.suspended ==> Resumed(s) == s
  {
  }

  /** An interrupt that can be taken clears its pending bit and empties every queue; no other one does anything. */
  lemma InterruptTaken(s: State)
    requires WellFormed(s)
    ensures var s' := Interrupted(s);
      if s.irqOn && s.irqPending then
        !s'.irqPending && (forall j :: 0 <= j < |s.queues| ==> s'.queues[j] == []) && s.deliveries <= s'.deliveries
      else s' == s
  {
  }

  /** While the stack is up an event is recorded at the end of its source's queue; nothing else is. */
  lemma ArrivalRecorded(s: State, source: nat, event: int, latched: bool)
    requires WellFormed(s)
    ensures var s' := Arrives(s, source, event, latched);
      if s.stackUp && source < |s.queues| then
        |s'.queues| == |s.queues| && (s.irqOn ==> s'.irqPending)
        && (forall j :: 0 <= j < |s.queues| ==>
              s'.queues[j] == s.queues[j] + (if j == source then [event] else [])
              && s'.arrived[j] == s.arrived[j] + (if j == source then [event] else []))
      else s' == s
  {
  }

  /** The deliveries of one source name that source. */
  lemma {:induction false} DrainNamesSource(source: nat, queue: seq<int>, n: nat)
    ensures forall k :: 0 <= k < |DrainLog(source, queue, n)| ==> DrainLog(source, queue, n)[k].source == source
  {
    if queue == [] {
    } else {
      DrainNamesSource(source, queue[..|queue| - 1], n);
    }
  }

  /** The sources of a log are below k and in order. */
  predicate InOrder(log: seq<Delivery>, k: nat) {
    (forall a :: 0 <= a < |log| ==> log[a].source < k)
    && (forall a, b :: 0 <= a < b < |log| ==> log[a].source <= log[b].source)
  }

  lemma OneMoreSource(front: seq<Delivery>, last: seq<Delivery>, k: nat)
    requires InOrder(front, k) && forall a :: 0 <= a < |last| ==> last[a].source == k
    ensures InOrder(front + last, k + 1)
  {
    var log := front + last;
    assert forall a :: 0 <= a < |log| ==> log[a] == if a < |front| then front[a] else last[a - |front|];
  }

  /** A poll serves the sources in their order. */
  lemma {:induction false} SourcesInOrder(queues: seq<seq<int>>, observers: seq<nat>, k: nat)
    requires k <= |queues| <= |observers|
    ensures InOrder(PollLog(queues, observers, k), k)
  {
    if k == 0 {
    } else {
      SourcesInOrder(queues, observers, k - 1);
      DrainNamesSource(k - 1, queues[k - 1], observers[k - 1]);
      OneMoreSource(PollLog(queues, observers, k - 1), DrainLog(k - 1, queues[k - 1], observers[k - 1]), k - 1);
    }
  }
}
