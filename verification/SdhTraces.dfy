/** The sequences of events a state observer can see. */
module SdhTraces {
  import opened SdhModel
  import opened Sdh
  import opened SdhHistory

  // ---------------------------------------------------------------- the language

  function Prepares(n: nat): seq<StateEvt> { seq(n, i => EnablePrepare) }

  /** n announcements, the last of which leads to a full cycle. */
  function Cycle(n: nat): seq<StateEvt> {
    Prepares(n) + [Enabled, DisablePrepare, Disabled]
  }

  function Cycles(ns: seq<nat>): seq<StateEvt> {
    if ns == [] then [] else Cycles(ns[..|ns| - 1]) + Cycle(ns[|ns| - 1])
  }

  predicate Positive(ns: seq<nat>) { forall k :: 0 <= k < |ns| ==> ns[k] >= 1 }

  /** A prefix of (ENABLE_PREPARE+ ENABLED DISABLE_PREPARE DISABLED)*. */
  ghost predicate InLanguage(trace: seq<StateEvt>) {
    exists ns: seq<nat> :: Positive(ns) && trace <= Cycles(ns)
  }

  // ---------------------------------------------------------------- its automaton

  datatype Seen = Start | Prep | Up | Stop | Dead

  function Sees(p: Seen, e: StateEvt): Seen {
    match (p, e)
    case (Start, EnablePrepare) => Prep
    case (Prep, EnablePrepare) => Prep
    case (Prep, Enabled) => Up
    case (Up, DisablePrepare) => Stop
    case (Stop, Disabled) => Start
    case _ => Dead
  }

  function SeenAfter(p: Seen, trace: seq<StateEvt>): Seen {
    if trace == [] then p else Sees(SeenAfter(p, trace[..|trace| - 1]), trace[|trace| - 1])
  }

  lemma {:induction false} SeenConcat(p: Seen, a: seq<StateEvt>, b: seq<StateEvt>)
    ensures SeenAfter(p, a + b) == SeenAfter(SeenAfter(p, a), b)
  {
    if b == [] {
      assert a + b == a;
    } else {
      SeenConcat(p, a, b[..|b| - 1]);
      assert (a + b)[..|a + b| - 1] == a + b[..|b| - 1];
    }
  }

  lemma SeenSnoc(p: Seen, a: seq<StateEvt>, e: StateEvt)
    ensures SeenAfter(p, a + [e]) == Sees(SeenAfter(p, a), e)
  {
    assert (a + [e])[..|a|] == a;
  }

  lemma {:induction false} DeadStaysDead(trace: seq<StateEvt>)
    ensures SeenAfter(Dead, trace) == Dead
  {
    if trace == [] {
    } else {
      DeadStaysDead(trace[..|trace| - 1]);
    }
  }

  lemma {:induction false} PreparesSeen(n: nat)
    ensures SeenAfter(Start, Prepares(n)) == if n == 0 then Start else Prep
  {
    if n == 0 {
    } else {
      PreparesSeen(n - 1);
      assert Prepares(n) == Prepares(n - 1) + [EnablePrepare];
      SeenSnoc(Start, Prepares(n - 1), EnablePrepare);
    }
  }

  lemma CycleSeen(n: nat)
    requires n >= 1
    ensures SeenAfter(Start, Cycle(n)) == Start
  {
    PreparesSeen(n);
    var a := Prepares(n);
    SeenSnoc(Start, a, Enabled);
    SeenSnoc(Start, a + [Enabled], DisablePrepare);
    SeenSnoc(Start, a + [Enabled] + [DisablePrepare], Disabled);
    assert Cycle(n) == a + [Enabled] + [DisablePrepare] + [Disabled];
  }

  lemma {:induction false} CyclesSeen(ns: seq<nat>)
    requires Positive(ns)
    ensures SeenAfter(Start, Cycles(ns)) == Start
  {
    if ns == [] {
    } else {
      CyclesSeen(ns[..|ns| - 1]);
      CycleSeen(ns[|ns| - 1]);
      SeenConcat(Start, Cycles(ns[..|ns| - 1]), Cycle(ns[|ns| - 1]));
    }
  }

  /** A trace in the language, as whole cycles and what is left of the last one. */
  function Tail(p: Seen, n: nat): seq<StateEvt> {
    match p
    case Start => []
    case Prep => Prepares(n)
    case Up => Prepares(n) + [Enabled]
    case _ => Prepares(n) + [Enabled, DisablePrepare]
  }

  lemma OneMoreCycle(ns: seq<nat>, n: nat)
    requires Positive(ns) && n >= 1
    ensures Positive(ns + [n]) && Cycles(ns + [n]) == Cycles(ns) + Cycle(n)
  {
    assert (ns + [n])[..|ns|] == ns;
  }

  /** How an event extends the unfinished cycle. */
  lemma TailStep(p: Seen, n: nat, e: StateEvt)
    requires n >= 1 && Sees(p, e) != Dead
    ensures p == Start ==> Tail(p, n) + [e] == Tail(Sees(p, e), 1)
    ensures p == Prep && e == EnablePrepare ==> Tail(p, n) + [e] == Tail(Sees(p, e), n + 1)
    ensures p == Prep && e == Enabled ==> Tail(p, n) + [e] == Tail(Sees(p, e), n)
    ensures p == Up ==> Tail(p, n) + [e] == Tail(Sees(p, e), n)
    ensures p == Stop ==> Tail(p, n) + [e] == Cycle(n) + Tail(Sees(p, e), n)
  {
  }

  lemma OneMoreEvent(ns: seq<nat>, n: nat, p: Seen, e: StateEvt) returns (ns': seq<nat>, n': nat)
    requires Positive(ns) && n >= 1 && Sees(p, e) != Dead
    ensures Positive(ns') && n' >= 1
    ensures Cycles(ns) + Tail(p, n) + [e] == Cycles(ns') + Tail(Sees(p, e), n')
  {
    TailStep(p, n, e);
    OneMoreCycle(ns, n);
    hide Cycles, Cycle, Tail;
    ns', n' := ns, n;
    assert Cycles(ns) + Tail(p, n) + [e] == Cycles(ns) + (Tail(p, n) + [e]);
    if p == Start {
      n' := 1;
    } else if p == Prep && e == EnablePrepare {
      n' := n + 1;
    } else if p == Stop {
      ns' := ns + [n];
      assert Cycles(ns) + (Cycle(n) + Tail(Sees(p, e), n)) == Cycles(ns') + Tail(Sees(p, e), n);
    }
  }

  lemma {:induction false} Split(trace: seq<StateEvt>) returns (ns: seq<nat>, n: nat)
    requires SeenAfter(Start, trace) != Dead
    ensures Positive(ns) && n >= 1
    ensures trace == Cycles(ns) + Tail(SeenAfter(Start, trace), n)
  {
    if trace == [] {
      ns, n := [], 1;
    } else {
      var front, e := trace[..|trace| - 1], trace[|trace| - 1];
      ns, n := Split(front);
      ns, n := OneMoreEvent(ns, n, SeenAfter(Start, front), e);
      assert trace == front + [e];
    }
  }

  /** Every beginning of whole cycles is accepted. */
  lemma BeginningsAccepted(trace: seq<StateEvt>, ns: seq<nat>)
    requires Positive(ns) && trace <= Cycles(ns)
    ensures SeenAfter(Start, trace) != Dead
  {
    hide Cycles, SeenAfter;
    CyclesSeen(ns);
    var rest := Cycles(ns)[|trace|..];
    assert Cycles(ns) == trace + rest;
    SeenConcat(Start, trace, rest);
    DeadStaysDead(rest);
  }

  lemma TailBeginsCycle(ns: seq<nat>, p: Seen, n: nat)
    ensures Cycles(ns) + Tail(p, n) <= Cycles(ns) + Cycle(n)
  {
  }

  /** The automaton accepts exactly the language. */
  lemma AutomatonAcceptsLanguage(trace: seq<StateEvt>)
    ensures InLanguage(trace) <==> SeenAfter(Start, trace) != Dead
  {
    hide Cycles, Cycle, Tail, SeenAfter, Positive;
    if SeenAfter(Start, trace) != Dead {
      var ns, n := Split(trace);
      TailBeginsCycle(ns, SeenAfter(Start, trace), n);
      OneMoreCycle(ns, n);
      assert trace <= Cycles(ns + [n]);
    }
    if InLanguage(trace) {
      var ns: seq<nat> :| Positive(ns) && trace <= Cycles(ns);
      BeginningsAccepted(trace, ns);
    }
  }

  // ---------------------------------------------------------------- runs

  /** The stack refused to be disabled, and an enable was announced later on. */
  predicate RestartedAfterFailure(history: seq<Happening>) {
    exists i, j :: 0 <= i < j < |history| && DisableFailed(history[i]) && history[j] == Notified(EnablePrepare)
  }

  predicate SomeDisableFailed(history: seq<Happening>) {
    exists i :: 0 <= i < |history| && DisableFailed(history[i])
  }

  lemma FailureSnoc(history: seq<Happening>, h: Happening)
    ensures SomeDisableFailed(history + [h]) <==> SomeDisableFailed(history) || DisableFailed(h)
    ensures RestartedAfterFailure(history + [h])
      <==> RestartedAfterFailure(history) || (SomeDisableFailed(history) && h == Notified(EnablePrepare))
  {
    var more := history + [h];
    assert forall k :: 0 <= k < |history| ==> more[k] == history[k];
    if SomeDisableFailed(history) && h == Notified(EnablePrepare) {
      var i :| 0 <= i < |history| && DisableFailed(history[i]);
      assert DisableFailed(more[i]) && more[|history|] == Notified(EnablePrepare);
    }
    if DisableFailed(h) {
      assert DisableFailed(more[|history|]);
    }
  }

  /** What an observer has seen when the protocol is in a phase and no disable has failed. */
  predicate Expected(p: Phase, seen: Seen) {
    match p
    case Off => seen == Start || seen == Prep
    case EnableGranted => seen == Start || seen == Prep
    case Preparing => seen == Prep
    case CameUp => seen == Prep
    case On => seen == Up
    case DisableGranted => seen == Up
    case Stopping => seen == Stop
    case WentDown => seen == Stop
    case Illegal => false
  }

  /** What an observer has seen by the end of a history. */
  function SeenBy(history: seq<Happening>): Seen {
    SeenAfter(Start, StateEvents(history))
  }

  lemma SeenByStep(history: seq<Happening>, h: Happening)
    ensures SeenBy(history + [h]) == if h.Notified? then Sees(SeenBy(history), h.evt) else SeenBy(history)
  {
    StateEventsStep(history, h);
    if h.Notified? {
      SeenSnoc(Start, StateEvents(history), h.evt);
    } else {
      assert StateEvents(history) + [] == StateEvents(history);
    }
  }

  /** Phase and trace fit together, whether or not a disable has failed. */
  predicate InStep(history: seq<Happening>) {
    if RestartedAfterFailure(history) then SeenBy(history) == Dead
    else if SomeDisableFailed(history) then
      SeenBy(history) == Stop && (PhaseOf(history) == Off || PhaseOf(history) == EnableGranted)
    else Expected(PhaseOf(history), SeenBy(history))
  }

  lemma InStepKept(history: seq<Happening>, h: Happening)
    requires InStep(history) && Next(PhaseOf(history), h) != Illegal
    ensures InStep(history + [h])
  {
    hide RestartedAfterFailure, SomeDisableFailed, PhaseOf, SeenBy;
    Snoc(history, h);
    FailureSnoc(history, h);
    SeenByStep(history, h);
  }

  lemma {:induction false} SeenInPhase(history: seq<Happening>)
    requires PhaseOf(history) != Illegal
    ensures InStep(history)
  {
    if history == [] {
    } else {
      var front, h := history[..|history| - 1], history[|history| - 1];
      assert history == front + [h];
      SeenInPhase(front);
      InStepKept(front, h);
    }
  }

  /**
   * Whatever the interleaving of requests, continues, vetoes, suspends and resumes, a state
   * observer sees a prefix of the protocol's language, unless an enable was announced after
   * a disable that the stack refused.
   */
  lemma TracesAreInLanguage(answers: seq<seq<bool>>, observers: seq<nat>, ops: seq<Op>)
    ensures var s := Run(Initial(answers, observers), ops);
      InLanguage(StateEvents(s.history)) <==> !RestartedAfterFailure(s.history)
  {
    var s := Run(Initial(answers, observers), ops);
    RunKeeps(answers, observers, ops);
    SeenInPhase(s.history);
    AutomatonAcceptsLanguage(StateEvents(s.history));
  }

  /** With a stack that can always be disabled, an observer sees nothing else. */
  lemma HealthyTraces(answers: seq<seq<bool>>, observers: seq<nat>, ops: seq<Op>)
    requires NoDisableFailed(Run(Initial(answers, observers), ops).history)
    ensures InLanguage(StateEvents(Run(Initial(answers, observers), ops).history))
  {
    TracesAreInLanguage(answers, observers, ops);
  }

  lemma {:induction false} PhaseAt(history: seq<Happening>, k: nat)
    requires PhaseOf(history) != Illegal && k <= |history|
    ensures PhaseOf(history[..k]) != Illegal
  {
    if k < |history| {
      PhaseAt(history[..|history| - 1], k);
      assert history[..|history| - 1][..k] == history[..k];
    } else {
      assert history[..k] == history;
    }
  }

  /** Every happening of a legal history is allowed in the phase before it. */
  lemma PhaseStep(history: seq<Happening>, k: nat)
    requires PhaseOf(history) != Illegal && k < |history|
    ensures var p := PhaseOf(history[..k]);
      p != Illegal && Next(p, history[k]) == PhaseOf(history[..k + 1]) != Illegal
  {
    PhaseAt(history, k);
    PhaseAt(history, k + 1);
    assert history[..k + 1][..k] == history[..k];
  }

  /** An announcement is repeated only after a stack enable has failed. */
  lemma RepeatedOnlyAfterFailure(history: seq<Happening>, i: nat, j: nat)
    requires PhaseOf(history) != Illegal
    requires i < j < |history| && history[i] == history[j] == Notified(EnablePrepare)
    requires forall k :: i < k < j ==> !history[k].Notified?
    ensures history[i + 1].StackEnable? && history[i + 1].code != NRF_SUCCESS
  {
    PhaseStep(history, i);
    PhaseStep(history, i + 1);
    if i + 2 < |history| {
      PhaseStep(history, i + 2);
    }
    hide PhaseOf;
  }
}
