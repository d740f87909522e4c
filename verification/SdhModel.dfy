/**
 * The SoftDevice handler as a state machine: what each operation does to the module's
 * flags, to the event interrupt and to the events of the stack.
 */
module SdhModel {
  const NRF_SUCCESS: int := 0
  const NRF_ERROR_INVALID_STATE: int := 8
  const NRF_ERROR_BUSY: int := 17

  datatype Request = EnableRequest | DisableRequest

  datatype StateEvt = EnablePrepare | Enabled | DisablePrepare | Disabled

  /** What the module has done, in order; the codes are those the stack returned. */
  datatype Happening =
    | Asked(request: Request, granted: bool)
    | Notified(evt: StateEvt)
    | StackEnable(code: int)
    | StackDisable(code: int)

  /** An event of one of the stack's sources, handed to one of the observers of that source. */
  datatype Delivery = Delivery(source: nat, event: int, observer: nat)

  datatype State = State(
    enabled: bool,
    suspended: bool,
    continuing: bool,
    irqOn: bool,
    irqPending: bool,
    stackUp: bool,
    answers: seq<seq<bool>>,    // what each request observer will answer; ready when nothing is left
    history: seq<Happening>,
    observers: seq<nat>,        // how many observers each source of stack events has
    queues: seq<seq<int>>,      // the events each source still holds
    arrived: seq<seq<int>>,     // the events of this session
    deliveries: seq<Delivery>,
    session: nat)               // the number of deliveries before this session

  predicate WellFormed(s: State) {
    |s.queues| == |s.observers| == |s.arrived| && s.session <= |s.deliveries|
  }

  function NoEvents(n: nat): seq<seq<int>> { seq(n, i => []) }

  function Initial(answers: seq<seq<bool>>, observers: seq<nat>): State {
    State(false, false, false, false, false, false, answers, [], observers,
          NoEvents(|observers|), NoEvents(|observers|), [], 0)
  }

  // ---------------------------------------------------------------- requests

  /** Asks the request observers in turn; the first refusal ends the pass. */
  function AskAll(answers: seq<seq<bool>>): (r: (bool, seq<seq<bool>>))
    ensures |r.1| == |answers|
  {
    if answers == [] then (true, [])
    else if answers[0] != [] && !answers[0][0] then (false, [answers[0][1..]] + answers[1..])
    else
      var rest := AskAll(answers[1..]);
      (rest.0, [if answers[0] == [] then [] else answers[0][1..]] + rest.1)
  }

  function Log(s: State, h: seq<Happening>): State { s.(history := s.history + h) }

  /** The stack starts without undelivered events, and drops them when it is shut down. */
  function NewSession(s: State, up: bool): State {
    s.(stackUp := up, queues := NoEvents(|s.observers|), arrived := NoEvents(|s.observers|), session := |s.deliveries|)
  }

  /** The request pass that both directions begin with. */
  function Begin(s: State, request: Request): (r: (bool, State)) {
    var (granted, answers) := AskAll(s.answers);
    (granted, Log(s.(continuing := true, answers := answers), [Asked(request, granted)]))
  }

  /** What an enable request does once all observers are ready. */
  function EnableStack(s: State, code: int): (r: (State, int))
    ensures WellFormed(s) ==> WellFormed(r.0) && r.0.observers == s.observers
  {
    var s1 := Log(s, [Notified(EnablePrepare), StackEnable(code)]);
    if code != NRF_SUCCESS then (s1.(enabled := false), code)
    else
      var s2 := NewSession(s1.(enabled := true, continuing := false, suspended := false, irqOn := true), true);
      (Log(s2, [Notified(Enabled)]), NRF_SUCCESS)
  }

  function EnableRequested(s: State, code: int): (r: (State, int))
    ensures WellFormed(s) ==> WellFormed(r.0) && r.0.observers == s.observers
  {
    if s.enabled then (s, NRF_ERROR_INVALID_STATE)
    else
      var (granted, s1) := Begin(s, EnableRequest);
      if !granted then (s1, NRF_SUCCESS) else EnableStack(s1, code)
  }

  /** What a disable request does once all observers are ready. */
  function DisableStack(s: State, code: int): (r: (State, int))
    ensures WellFormed(s) ==> WellFormed(r.0) && r.0.observers == s.observers
  {
    var s1 := Log(s, [Notified(DisablePrepare), StackDisable(code)]).(enabled := false);
    if code != NRF_SUCCESS then (s1, code)
    else
      var s2 := NewSession(s1.(continuing := false, irqOn := false), false);
      (Log(s2, [Notified(Disabled)]), NRF_SUCCESS)
  }

  function DisableRequested(s: State, code: int): (r: (State, int))
    ensures WellFormed(s) ==> WellFormed(r.0) && r.0.observers == s.observers
  {
    if !s.enabled then (s, NRF_ERROR_INVALID_STATE)
    else
      var (granted, s1) := Begin(s, DisableRequest);
      if !granted then (s1, NRF_SUCCESS) else DisableStack(s1, code)
  }

  function ContinueRequested(s: State, code: int): (r: (State, int))
    ensures WellFormed(s) ==> WellFormed(r.0) && r.0.observers == s.observers
  {
    if !s.continuing then (s, NRF_ERROR_INVALID_STATE)
    else if s.enabled then DisableRequested(s, code)
    else EnableRequested(s, code)
  }

  // ---------------------------------------------------------------- suspension and events

  function Suspended(s: State): State {
    if !s.enabled then s else s.(irqOn := false, suspended := true)
  }

  function Resumed(s: State): State {
    if !s.suspended || !s.enabled then s else s.(irqPending := true, irqOn := true, suspended := false)
  }

  predicate IsSuspended(s: State) { !s.enabled || s.suspended }

  /** An event to each of its n observers. */
  function EventLog(source: nat, event: int, n: nat): (log: seq<Delivery>)
    ensures |log| == n
    ensures forall i :: 0 <= i < n ==> log[i] == Delivery(source, event, i)
  {
    if n == 0 then [] else EventLog(source, event, n - 1) + [Delivery(source, event, n - 1)]
  }

  /** All events of one source, in the order of their arrival. */
  function DrainLog(source: nat, queue: seq<int>, n: nat): seq<Delivery> {
    if queue == [] then []
    else DrainLog(source, queue[..|queue| - 1], n) + EventLog(source, queue[|queue| - 1], n)
  }

  /** The first k sources, one after the other. */
  function PollLog(queues: seq<seq<int>>, observers: seq<nat>, k: nat): seq<Delivery>
    requires k <= |queues| <= |observers|
  {
    if k == 0 then [] else PollLog(queues, observers, k - 1) + DrainLog(k - 1, queues[k - 1], observers[k - 1])
  }

  function Polled(s: State): State
    requires WellFormed(s)
  {
    s.(queues := NoEvents(|s.queues|), deliveries := s.deliveries + PollLog(s.queues, s.observers, |s.queues|))
  }

  /** The interrupt handler runs when its interrupt is on and pending; entering it clears the pending bit. */
  function Interrupted(s: State): State
    requires WellFormed(s)
  {
    if s.irqOn && s.irqPending then Polled(s.(irqPending := false)) else s
  }

  /**
   * The stack reports an event. An enabled interrupt becomes pending; whether a disabled
   * one remembers the signal is left open.
   */
  function Arrives(s: State, source: nat, event: int, latched: bool): State
    requires WellFormed(s)
  {
    if !s.stackUp || source >= |s.queues| then s
    else
      s.(queues := s.queues[source := s.queues[source] + [event]],
         arrived := s.arrived[source := s.arrived[source] + [event]],
         irqPending := s.irqPending || s.irqOn || latched)
  }

  // ---------------------------------------------------------------- runs

  /** Calls of the module's functions and steps of its surroundings, with the outcomes the stack chooses. */
  datatype Op =
    | OpEnable(code: int)
    | OpDisable(code: int)
    | OpContinue(code: int)
    | OpSuspend
    | OpResume
    | OpPoll
    | OpInterrupt
    | OpArrive(source: nat, event: int, latched: bool)

  function Step(s: State, op: Op): (s': State)
    requires WellFormed(s)
    ensures WellFormed(s')
  {
    match op
    case OpEnable(code) => EnableRequested(s, code).0
    case OpDisable(code) => DisableRequested(s, code).0
    case OpContinue(code) => ContinueRequested(s, code).0
    case OpSuspend => Suspended(s)
    case OpResume => Resumed(s)
    case OpPoll => Polled(s)
    case OpInterrupt => Interrupted(s)
    case OpArrive(source, event, latched) => Arrives(s, source, event, latched)
  }

  /** The state after a run of operations. */
  function Run(s: State, ops: seq<Op>): (s': State)
    requires WellFormed(s)
    ensures WellFormed(s')
  {
    if ops == [] then s else Step(Run(s, ops[..|ops| - 1]), ops[|ops| - 1])
  }
}
