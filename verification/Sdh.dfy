/** The SoftDevice handler module: three flags, observer loops, and the event interrupt. */
module Sdh {
  import opened SdhModel

  /** The state events in a history, in order. */
  function StateEvents(history: seq<Happening>): seq<StateEvt> {
    if history == [] then []
    else
      var last := history[|history| - 1];
      StateEvents(history[..|history| - 1]) + if last.Notified? then [last.evt] else []
  }

  lemma StateEventsStep(history: seq<Happening>, h: Happening)
    ensures StateEvents(history + [h]) == StateEvents(history) + if h.Notified? then [h.evt] else []
  {
    assert (history + [h])[..|history|] == history;
  }

  /** The first i observers have been asked and were ready; the others are as before. */
  ghost predicate Asking(before: seq<seq<bool>>, now: seq<seq<bool>>, i: nat) {
    i <= |before| == |now| && now[i..] == before[i..]
    && AskAll(before) == (AskAll(before[i..]).0, now[..i] + AskAll(before[i..]).1)
  }

  lemma AskingStarts(answers: seq<seq<bool>>)
    ensures Asking(answers, answers, 0)
  {
    assert answers[0..] == answers && answers[..0] + AskAll(answers).1 == AskAll(answers).1;
  }

  /** What is left of an observer's answers after it has been asked. */
  function Later(answers: seq<bool>): seq<bool> {
    if answers == [] then [] else answers[1..]
  }

  lemma AskedReady(before: seq<seq<bool>>, now: seq<seq<bool>>, i: nat)
    requires Asking(before, now, i) && i < |before| && (now[i] == [] || now[i][0])
    ensures Asking(before, now[i := Later(now[i])], i + 1)
  {
    var rest, next := before[i..], now[i := Later(now[i])];
    assert rest[0] == now[i] && rest[1..] == before[i + 1..];
    assert next[..i + 1] == now[..i] + [Later(now[i])];
    assert now[..i] + ([Later(now[i])] + AskAll(rest[1..]).1) == next[..i + 1] + AskAll(rest[1..]).1;
  }

  lemma RefusedAtOnce(answers: seq<seq<bool>>)
    requires answers != [] && answers[0] != [] && !answers[0][0]
    ensures AskAll(answers) == (false, [Later(answers[0])] + answers[1..])
  {
  }

  lemma AskedRefused(before: seq<seq<bool>>, now: seq<seq<bool>>, i: nat)
    requires Asking(before, now, i) && i < |before| && now[i] != [] && !now[i][0]
    ensures AskAll(before) == (false, now[i := Later(now[i])])
  {
    hide AskAll, Later;
    var rest := before[i..];
    assert rest[0] == now[i] && rest[1..] == now[i + 1..];
    RefusedAtOnce(rest);
    assert now[..i] + ([Later(now[i])] + rest[1..]) == now[i := Later(now[i])];
  }

  lemma AskingEnds(before: seq<seq<bool>>, now: seq<seq<bool>>)
    requires Asking(before, now, |before|)
    ensures AskAll(before) == (true, now)
  {
    assert before[|before|..] == [] && now[..|before|] + [] == now;
  }

  class Handler {
    // m_nrf_sdh_enabled, m_nrf_sdh_suspended, m_nrf_sdh_continue
    var enabled: bool
    var suspended: bool
    var continuing: bool

    // The surroundings: interrupt controller, request observers, state observers, event sources.
    var irqOn: bool
    var irqPending: bool
    var answers: seq<seq<bool>>
    var notified: seq<seq<StateEvt>>    // what each state observer has been told
    const observers: seq<nat>
    var queues: seq<seq<int>>
    var deliveries: seq<Delivery>

    ghost var stackUp: bool
    ghost var history: seq<Happening>
    ghost var arrived: seq<seq<int>>
    ghost var session: nat

    ghost function Abs(): State
      reads this
    {
      State(enabled, suspended, continuing, irqOn, irqPending, stackUp, answers, history,
            observers, queues, arrived, deliveries, session)
    }

    /** Every state observer has been told of every state event, in order. */
    ghost predicate Valid()
      reads this
    {
      WellFormed(Abs()) && forall k :: 0 <= k < |notified| ==> notified[k] == StateEvents(history)
    }

    constructor (answers: seq<seq<bool>>, stateObservers: nat, observers: seq<nat>)
      ensures Valid() && Abs() == Initial(answers, observers) && |notified| == stateObservers
    {
      enabled, suspended, continuing, irqOn, irqPending, stackUp := false, false, false, false, false, false;
      this.answers, this.observers, notified := answers, observers, seq(stateObservers, i => []);
      queues, arrived := NoEvents(|observers|), NoEvents(|observers|);
      deliveries, session, history := [], 0, [];
    }

    /** A request observer is asked; it is ready once its refusals are used up. */
    method CallRequestHandler(i: nat) returns (ready: bool)
      requires i < |answers|
      modifies `answers
      ensures ready == (old(answers[i]) == [] || old(answers[i])[0])
      ensures answers == old(answers)[i := Later(old(answers[i]))]
    {
      ready := answers[i] == [] || answers[i][0];
      answers := answers[i := Later(answers[i])];
    }

    method RequestObserverNotify(ghost request: Request) returns (code: int)
      modifies `answers
      ensures (code == NRF_SUCCESS, answers) == AskAll(old(answers))
      ensures code == NRF_SUCCESS || code == NRF_ERROR_BUSY
    {
      AskingStarts(answers);
      hide Asking, AskAll;
      var i := 0;
      while i < |answers|
        invariant i <= |answers| == |old(answers)| && Asking(old(answers), answers, i)
      {
        ghost var now := answers;
        var ready := CallRequestHandler(i);
        if ready {
          AskedReady(old(answers), now, i);
        } else {
          AskedRefused(old(answers), now, i);
          return NRF_ERROR_BUSY;
        }
        i := i + 1;
      }
      AskingEnds(old(answers), answers);
      return NRF_SUCCESS;
    }

    /** The handlers of all state observers are called with the event. */
    method TellObservers(evt: StateEvt)
      modifies `notified
      ensures |notified| == |old(notified)|
      ensures forall k :: 0 <= k < |notified| ==> notified[k] == old(notified)[k] + [evt]
    {
      var i := 0;
      while i < |notified|
        invariant i <= |notified| == |old(notified)|
        invariant forall k :: 0 <= k < i ==> notified[k] == old(notified)[k] + [evt]
        invariant forall k :: i <= k < |notified| ==> notified[k] == old(notified)[k]
      {
        notified := notified[i := notified[i] + [evt]];
        i := i + 1;
      }
    }

    method StateObserverNotify(evt: StateEvt)
      requires Valid()
      modifies `notified, `history
      ensures Valid() && |notified| == |old(notified)|
      ensures Abs() == Log(old(Abs()), [Notified(evt)])
    {
      StateEventsStep(history, Notified(evt));
      hide StateEvents;
      TellObservers(evt);
      history := history + [Notified(evt)];
    }

    /** A happening that is no state event. */
    ghost method Record(h: Happening)
      requires Valid() && !h.Notified?
      modifies `history
      ensures Valid() && Abs() == Log(old(Abs()), [h])
    {
      StateEventsStep(history, h);
      history := history + [h];
    }

    /** The stack comes up without events, or drops those it holds. */
    method RestartEvents(ghost up: bool)
      requires Valid()
      modifies `queues, `arrived, `session, `stackUp
      ensures Valid() && Abs() == NewSession(old(Abs()), up)
    {
      queues, arrived, session, stackUp := NoEvents(|observers|), NoEvents(|observers|), |deliveries|, up;
    }

    /** Both directions begin with a pass over the request observers. */
    method BeginCall(request: Request) returns (busy: int)
      requires Valid()
      modifies this
      ensures Valid() && |notified| == |old(notified)|
      ensures (busy != NRF_ERROR_BUSY, Abs()) == Begin(old(Abs()), request)
    {
      hide StateEvents, AskAll;
      continuing := true;
      busy := RequestObserverNotify(request);
      Record(Asked(request, busy == NRF_SUCCESS));
    }

    method EnableStackCall(stackCode: int) returns (code: int)
      requires Valid()
      modifies this
      ensures Valid() && |notified| == |old(notified)|
      ensures (Abs(), code) == EnableStack(old(Abs()), stackCode)
    {
      hide StateEvents, NoEvents;
      StateObserverNotify(EnablePrepare);
      Record(StackEnable(stackCode));
      assert history == old(history) + [Notified(EnablePrepare), StackEnable(stackCode)];
      enabled := stackCode == NRF_SUCCESS;
      if stackCode != NRF_SUCCESS {
        return stackCode;
      }
      continuing := false;
      suspended := false;
      irqOn := true;
      RestartEvents(true);
      StateObserverNotify(Enabled);
      return NRF_SUCCESS;
    }

    method EnableRequestCall(stackCode: int) returns (code: int)
      requires Valid()
      modifies this
      ensures Valid() && |notified| == |old(notified)|
      ensures (Abs(), code) == EnableRequested(old(Abs()), stackCode)
    {
      hide EnableStack, Begin, StateEvents;
      if enabled {
        return NRF_ERROR_INVALID_STATE;
      }
      var busy := BeginCall(EnableRequest);
      if busy == NRF_ERROR_BUSY {
        return NRF_SUCCESS;
      }
      code := EnableStackCall(stackCode);
    }

    method DisableStackCall(stackCode: int) returns (code: int)
      requires Valid()
      modifies this
      ensures Valid() && |notified| == |old(notified)|
      ensures (Abs(), code) == DisableStack(old(Abs()), stackCode)
    {
      hide StateEvents, NoEvents;
      StateObserverNotify(DisablePrepare);
      Record(StackDisable(stackCode));
      assert history == old(history) + [Notified(DisablePrepare), StackDisable(stackCode)];
      enabled := false;
      if stackCode != NRF_SUCCESS {
        return stackCode;
      }
      continuing := false;
      irqOn := false;
      RestartEvents(false);
      StateObserverNotify(Disabled);
      return NRF_SUCCESS;
    }

    method DisableRequestCall(stackCode: int) returns (code: int)
      requires Valid()
      modifies this
      ensures Valid() && |notified| == |old(notified)|
      ensures (Abs(), code) == DisableRequested(old(Abs()), stackCode)
    {
      hide DisableStack, Begin, StateEvents;
      if !enabled {
        return NRF_ERROR_INVALID_STATE;
      }
      var busy := BeginCall(DisableRequest);
      if busy == NRF_ERROR_BUSY {
        return NRF_SUCCESS;
      }
      code := DisableStackCall(stackCode);
    }

    method RequestContinue(stackCode: int) returns (code: int)
      requires Valid()
      modifies this
      ensures Valid() && |notified| == |old(notified)|
      ensures (Abs(), code) == ContinueRequested(old(Abs()), stackCode)
    {
      if !continuing {
        return NRF_ERROR_INVALID_STATE;
      }
      if enabled {
        code := DisableRequestCall(stackCode);
      } else {
        code := EnableRequestCall(stackCode);
      }
    }

    method Suspend()
      requires Valid()
      modifies `irqOn, `suspended
      ensures Valid() && Abs() == Suspended(old(Abs()))
    {
      if !enabled {
        return;
      }
      irqOn := false;
      suspended := true;
    }

    method Resume()
      requires Valid()
      modifies `irqOn, `irqPending, `suspended
      ensures Valid() && Abs() == Resumed(old(Abs()))
    {
      if !suspended || !enabled {
        return;
      }
      irqPending := true;
      irqOn := true;
      suspended := false;
    }

    method IsSuspendedCall() returns (r: bool)
      ensures r == IsSuspended(Abs())
    {
      r := !enabled || suspended;
    }

    /** One event to every observer of a source. */
    method CallEventHandlers(source: nat, event: int)
      requires Valid() && source < |observers|
      modifies `deliveries
      ensures Valid() && deliveries == old(deliveries) + EventLog(source, event, observers[source])
    {
      var i := 0;
      while i < observers[source]
        invariant i <= observers[source] && Valid()
        invariant deliveries == old(deliveries) + EventLog(source, event, i)
      {
        deliveries := deliveries + [Delivery(source, event, i)];
        i := i + 1;
      }
    }

    /** A stack observer: fetches events until its source has none. */
    method DrainSource(source: nat)
      requires Valid() && source < |queues|
      modifies `deliveries, `queues
      ensures Valid() && queues == old(queues)[source := []]
      ensures deliveries == old(deliveries) + DrainLog(source, old(queues)[source], observers[source])
    {
      ghost var all, done := queues[source], 0;
      while queues[source] != []
        invariant Valid() && done <= |all| && source < |queues|
        invariant queues == old(queues)[source := all[done..]]
        invariant deliveries == old(deliveries) + DrainLog(source, all[..done], observers[source])
        decreases |queues[source]|
      {
        var event := queues[source][0];
        queues := queues[source := queues[source][1..]];
        assert all[..done + 1][..done] == all[..done];
        CallEventHandlers(source, event);
        done := done + 1;
      }
      assert all[..done] == all;
    }

    method EvtsPoll()
      requires Valid()
      modifies `deliveries, `queues
      ensures Valid() && Abs() == Polled(old(Abs()))
    {
      hide DrainLog, StateEvents;
      ghost var before := queues;
      var i := 0;
      while i < |queues|
        invariant i <= |queues| == |before| && Valid()
        invariant forall k :: 0 <= k < i ==> queues[k] == []
        invariant queues[i..] == before[i..]
        invariant deliveries == old(deliveries) + PollLog(before, observers, i)
      {
        assert queues[i] == before[i];
        DrainSource(i);
        i := i + 1;
      }
      assert queues == NoEvents(|before|);
    }

    method IrqHandler()
      requires Valid() && irqOn && irqPending
      modifies `irqPending, `deliveries, `queues
      ensures Valid() && Abs() == Interrupted(old(Abs()))
    {
      irqPending := false;
      EvtsPoll();
    }
  }
}
