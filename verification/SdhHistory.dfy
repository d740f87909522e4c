/** What every run of the SoftDevice handler does, read off its history. */
module SdhHistory {
  import opened SdhModel
  import opened Sdh

  // ---------------------------------------------------------------- the order of happenings

  datatype Phase =
    | Off | EnableGranted | Preparing | CameUp
    | On | DisableGranted | Stopping | WentDown
    | Illegal

  /**
   * The protocol: a granted request is followed by its announcement, the stack call, and
   * the report of its success; a failed stack call leads back to the state switched off.
   */
  function Next(p: Phase, h: Happening): Phase {
    match (p, h)
    case (Off, Asked(EnableRequest, granted)) => if granted then EnableGranted else Off
    case (EnableGranted, Notified(EnablePrepare)) => Preparing
    case (Preparing, StackEnable(code)) => if code == NRF_SUCCESS then CameUp else Off
    case (CameUp, Notified(Enabled)) => On
    case (On, Asked(DisableRequest, granted)) => if granted then DisableGranted else On
    case (DisableGranted, Notified(DisablePrepare)) => Stopping
    case (Stopping, StackDisable(code)) => if code == NRF_SUCCESS then WentDown else Off
    case (WentDown, Notified(Disabled)) => Off
    case _ => Illegal
  }

  function PhaseOf(history: seq<Happening>): Phase {
    if history == [] then Off else Next(PhaseOf(history[..|history| - 1]), history[|history| - 1])
  }

  /** The request pass made last. */
  function LastAsked(history: seq<Happening>): (r: Request)
  {
    if history == [] then EnableRequest
    else if history[|history| - 1].Asked? then history[|history| - 1].request
    else LastAsked(history[..|history| - 1])
  }

  /** A request was blocked, or the stack call it led to failed. */
  predicate Unfinished(h: Happening) {
    match h
    case Asked(_, granted) => !granted
    case StackEnable(code) => code != NRF_SUCCESS
    case StackDisable(code) => code != NRF_SUCCESS
    case Notified(_) => false
  }

  predicate DisableFailed(h: Happening) { h.StackDisable? && h.code != NRF_SUCCESS }

  /** A disable has failed in the stack, and the stack has not been enabled or disabled since. */
  predicate FailureStands(history: seq<Happening>) {
    history != [] &&
    var last := history[|history| - 1];
    if last.StackDisable? || (last.StackEnable? && last.code == NRF_SUCCESS) then DisableFailed(last)
    else FailureStands(history[..|history| - 1])
  }

  /** What every operation keeps. */
  ghost predicate Inv(s: State) {
    WellFormed(s)
    && PhaseOf(s.history) == (if s.enabled then On else Off)
    && (s.continuing <==> s.history != [] && Unfinished(s.history[|s.history| - 1]))
    && (s.continuing ==>
          (LastAsked(s.history) == DisableRequest <==> s.enabled || DisableFailed(s.history[|s.history| - 1])))
    && (s.stackUp <==> s.enabled || FailureStands(s.history))
    && !(s.enabled && FailureStands(s.history))
    && (s.irqOn <==> s.stackUp && !s.suspended)
  }

  /** The three functions of the history after one more happening. */
  lemma Snoc(history: seq<Happening>, h: Happening)
    ensures PhaseOf(history + [h]) == Next(PhaseOf(history), h)
    ensures LastAsked(history + [h]) == if h.Asked? then h.request else LastAsked(history)
    ensures FailureStands(history + [h])
      == if h.StackDisable? || (h.StackEnable? && h.code == NRF_SUCCESS) then DisableFailed(h)
         else FailureStands(history)
  {
    assert (history + [h])[..|history|] == history;
  }

  lemma BeginKeeps(s: State, request: Request)
    requires Inv(s) && s.enabled == (request == DisableRequest)
    ensures var (granted, s1) := Begin(s, request);
      if granted then
        PhaseOf(s1.history) == (if s.enabled then DisableGranted else EnableGranted)
        && LastAsked(s1.history) == request && FailureStands(s1.history) == FailureStands(s.history)
      else Inv(s1)
  {
    Snoc(s.history, Asked(request, Begin(s, request).0));
  }

  lemma Snoc2(history: seq<Happening>, a: Happening, b: Happening)
    ensures PhaseOf(history + [a, b]) == Next(Next(PhaseOf(history), a), b)
    ensures LastAsked(history + [a, b])
      == if b.Asked? then b.request else if a.Asked? then a.request else LastAsked(history)
    ensures FailureStands(history + [a, b]) == FailureStands(history + [a] + [b])
  {
    Snoc(history, a);
    Snoc(history + [a], b);
    assert history + [a] + [b] == history + [a, b];
  }

  lemma EnableStackKeeps(s: State, code: int)
    requires WellFormed(s) && s.continuing && !s.enabled && LastAsked(s.history) == EnableRequest
    requires PhaseOf(s.history) == EnableGranted
    requires (s.stackUp <==> FailureStands(s.history)) && (s.irqOn <==> s.stackUp && !s.suspended)
    ensures Inv(EnableStack(s, code).0)
  {
    hide PhaseOf, LastAsked, FailureStands;
    Snoc(s.history, Notified(EnablePrepare));
    Snoc(s.history + [Notified(EnablePrepare)], StackEnable(code));
    Snoc2(s.history, Notified(EnablePrepare), StackEnable(code));
    Snoc(s.history + [Notified(EnablePrepare), StackEnable(code)], Notified(Enabled));
  }

  lemma EnableKeeps(s: State, code: int)
    requires Inv(s)
    ensures Inv(EnableRequested(s, code).0)
  {
    if !s.enabled {
      BeginKeeps(s, EnableRequest);
      var (granted, s1) := Begin(s, EnableRequest);
      if granted {
        EnableStackKeeps(s1, code);
      }
    }
  }

  lemma DisableStackKeeps(s: State, code: int)
    requires WellFormed(s) && s.continuing && s.enabled && LastAsked(s.history) == DisableRequest
    requires PhaseOf(s.history) == DisableGranted
    requires s.stackUp && (s.irqOn <==> !s.suspended)
    ensures Inv(DisableStack(s, code).0)
  {
    hide PhaseOf, LastAsked, FailureStands;
    Snoc(s.history, Notified(DisablePrepare));
    Snoc(s.history + [Notified(DisablePrepare)], StackDisable(code));
    Snoc2(s.history, Notified(DisablePrepare), StackDisable(code));
    Snoc(s.history + [Notified(DisablePrepare), StackDisable(code)], Notified(Disabled));
  }

  lemma DisableKeeps(s: State, code: int)
    requires Inv(s)
    ensures Inv(DisableRequested(s, code).0)
  {
    if s.enabled {
      BeginKeeps(s, DisableRequest);
      var (granted, s1) := Begin(s, DisableRequest);
      if granted {
        DisableStackKeeps(s1, code);
      }
    }
  }

  lemma StepKeeps(s: State, op: Op)
    requires Inv(s)
    ensures Inv(Step(s, op))
  {
    match op
    case OpEnable(code) => EnableKeeps(s, code);
    case OpDisable(code) => DisableKeeps(s, code);
    case OpContinue(code) =>
      EnableKeeps(s, code);
      DisableKeeps(s, code);
    case OpSuspend =>
    case OpResume =>
    case OpPoll =>
    case OpInterrupt =>
    case OpArrive(source, event, latched) =>
  }

  /** The invariant holds after every run, whatever the interleaving and whatever the stack answers. */
  lemma {:induction false} RunKeeps(answers: seq<seq<bool>>, observers: seq<nat>, ops: seq<Op>)
    ensures Inv(Run(Initial(answers, observers), ops))
  {
    if ops == [] {
    } else {
      RunKeeps(answers, observers, ops[..|ops| - 1]);
      StepKeeps(Run(Initial(answers, observers), ops[..|ops| - 1]), ops[|ops| - 1]);
    }
  }

  // ---------------------------------------------------------------- direction and interrupt

  /**
   * Continuing resumes the request that was interrupted last, unless that was a disable
   * the stack refused: the flag is cleared all the same, so an enable is started instead.
   */
  lemma ContinueResumes(answers: seq<seq<bool>>, observers: seq<nat>, ops: seq<Op>, code: int)
    ensures var s := Run(Initial(answers, observers), ops);
      var s' := Step(s, OpContinue(code));
      if !s.continuing then s' == s
      else
        s.history != [] && s.history < s'.history && s'.history[|s.history|].Asked?
        && (s'.history[|s.history|].request == LastAsked(s.history)
            <==> !DisableFailed(s.history[|s.history| - 1]))
  {
    RunKeeps(answers, observers, ops);
    var s := Run(Initial(answers, observers), ops);
    if s.continuing {
      var request := if s.enabled then DisableRequest else EnableRequest;
      var s1 := Begin(s, request).1;
      assert s1.history == s.history + [Asked(request, Begin(s, request).0)];
      assert s1.history <= Step(s, OpContinue(code)).history;
    }
  }

  /**
   * The event interrupt is enabled exactly when the module says that it is not suspended,
   * except after a disable that the stack refused while the module was running.
   */
  lemma InterruptFollowsSuspension(answers: seq<seq<bool>>, observers: seq<nat>, ops: seq<Op>)
    ensures var s := Run(Initial(answers, observers), ops);
      (s.irqOn <==> !IsSuspended(s)) <==> (FailureStands(s.history) ==> s.suspended)
  {
    RunKeeps(answers, observers, ops);
  }

  /** The stack has never refused to be disabled. */
  predicate NoDisableFailed(history: seq<Happening>) {
    forall k :: 0 <= k < |history| ==> !DisableFailed(history[k])
  }

  lemma {:induction false} NoFailureStands(history: seq<Happening>)
    requires NoDisableFailed(history)
    ensures !FailureStands(history)
  {
    if history == [] {
    } else {
      NoFailureStands(history[..|history| - 1]);
    }
  }

  /** With a stack that can always be disabled, both properties hold without exception. */
  lemma HealthyStack(answers: seq<seq<bool>>, observers: seq<nat>, ops: seq<Op>)
    requires NoDisableFailed(Run(Initial(answers, observers), ops).history)
    ensures var s := Run(Initial(answers, observers), ops);
      (s.irqOn <==> !IsSuspended(s))
      && (s.continuing ==> (LastAsked(s.history) == DisableRequest <==> s.enabled))
  {
    RunKeeps(answers, observers, ops);
    NoFailureStands(Run(Initial(answers, observers), ops).history);
  }

  /** The failing case: enable, a disable the stack refuses, continue. */
  lemma RefusedDisableIsResumedAsEnable()
    ensures var s := Run(Initial([], []), [OpEnable(0), OpDisable(8)]);
      s.continuing && LastAsked(s.history) == DisableRequest && s.irqOn && IsSuspended(s)
      && Step(s, OpContinue(0)).history[|s.history|] == Asked(EnableRequest, true)
  {
    var s0 := Initial([], []);
    var s1 := Step(s0, OpEnable(0));
    var s2 := Step(s1, OpDisable(8));
    var ops := [OpEnable(0), OpDisable(8)];
    assert ops[..1] == [OpEnable(0)] && ops[..1][..0] == [];
    assert Run(s0, ops[..1][..0]) == s0;
    assert Run(s0, ops[..1]) == s1;
    assert Run(s0, ops) == s2;
    var h := s1.history + [Asked(DisableRequest, true)];
    assert s2.history == h + [Notified(DisablePrepare), StackDisable(8)];
    Snoc(s1.history, Asked(DisableRequest, true));
    Snoc2(h, Notified(DisablePrepare), StackDisable(8));
  }
}
