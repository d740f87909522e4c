/** How many resumptions a request needs when observers refuse it. */
module SdhResumption {
  import opened SdhModel

  function Refusals(answers: seq<bool>): nat {
    if answers == [] then 0 else (if answers[0] then 0 else 1) + Refusals(answers[1..])
  }

  /** The refusals all observers still have in store. */
  function TotalRefusals(answers: seq<seq<bool>>): nat {
    if answers == [] then 0 else Refusals(answers[0]) + TotalRefusals(answers[1..])
  }

  /** The observer refuses a number of times and is ready from then on. */
  predicate Stubborn(answers: seq<bool>) {
    forall i, j :: 0 <= i < j < |answers| ==> answers[i] ==> answers[j]
  }

  predicate AllStubborn(answers: seq<seq<bool>>) {
    forall k :: 0 <= k < |answers| ==> Stubborn(answers[k])
  }

  /** A blocked pass uses up exactly one refusal, and a pass that is granted none. */
  lemma {:induction false} PassUsesOneRefusal(answers: seq<seq<bool>>)
    ensures var (granted, rest) := AskAll(answers);
      TotalRefusals(answers) == TotalRefusals(rest) + if granted then 0 else 1
  {
    if answers == [] {
    } else {
      PassUsesOneRefusal(answers[1..]);
      var rest := AskAll(answers).1;
      if answers[0] != [] && !answers[0][0] {
        assert rest[1..] == answers[1..];
      } else {
        assert rest[1..] == AskAll(answers[1..]).1;
      }
    }
  }

  lemma {:induction false} StubbornReady(answers: seq<bool>)
    requires Stubborn(answers) && answers != [] && answers[0]
    ensures Refusals(answers) == 0
  {
    if |answers| <= 1 {
    } else {
      assert answers[1..][0];
      StubbornReady(answers[1..]);
    }
  }

  /** Stubborn observers stay so, and they grant the request only when nobody refuses any more. */
  lemma {:induction false} StubbornPass(answers: seq<seq<bool>>)
    requires AllStubborn(answers)
    ensures AllStubborn(AskAll(answers).1)
    ensures AskAll(answers).0 <==> TotalRefusals(answers) == 0
  {
    if answers == [] {
    } else {
      assert Stubborn(answers[0]);
      assert AllStubborn(answers[1..]) by {
        assert forall k :: 0 <= k < |answers| - 1 ==> answers[1..][k] == answers[k + 1];
      }
      StubbornPass(answers[1..]);
      if answers[0] != [] && answers[0][0] {
        StubbornReady(answers[0]);
      }
    }
  }

  /** The state and the code after one more call of the continue function, the stack succeeding. */
  function Continues(s: State, k: nat): State {
    if k == 0 then s else ContinueRequested(Continues(s, k - 1), NRF_SUCCESS).0
  }

  /** A request in either direction; the stack succeeds. */
  function Requested(s: State): (r: (State, int)) {
    if s.enabled then DisableRequested(s, NRF_SUCCESS) else EnableRequested(s, NRF_SUCCESS)
  }

  /** One pass of a request: granted, or blocked with the answers that are left. */
  lemma RequestPass(s: State)
    ensures var (s', code) := Requested(s);
      var (granted, rest) := AskAll(s.answers);
      code == NRF_SUCCESS && s'.answers == rest
      && s'.enabled == (if granted then !s.enabled else s.enabled) && s'.continuing == !granted
  {
  }

  lemma ContinueIsRequest(s: State)
    requires s.continuing
    ensures ContinueRequested(s, NRF_SUCCESS) == Requested(s)
  {
  }

  /**
   * If the observers together refuse n times before they are ready, a request and exactly n
   * continues bring the module into the other state. Each call returns success, each blocked
   * one leaves one refusal less, and one further continue is an invalid state.
   */
  lemma {:induction false} ExactlyAsManyContinues(s: State, k: nat)
    requires AllStubborn(s.answers) && k <= TotalRefusals(s.answers)
    ensures Requested(s).1 == NRF_SUCCESS
    ensures var n := TotalRefusals(s.answers);
      var t := Continues(Requested(s).0, k);
      AllStubborn(t.answers)
      && (k < n ==> t.enabled == s.enabled && t.continuing && TotalRefusals(t.answers) == n - 1 - k
                    && ContinueRequested(t, NRF_SUCCESS).1 == NRF_SUCCESS)
      && (k == n ==> t.enabled != s.enabled && !t.continuing
                     && ContinueRequested(t, NRF_SUCCESS) == (t, NRF_ERROR_INVALID_STATE))
  {
    if k == 0 {
      RequestPass(s);
      PassUsesOneRefusal(s.answers);
      StubbornPass(s.answers);
      RequestPass(Requested(s).0);
    } else {
      ExactlyAsManyContinues(s, k - 1);
      var t := Continues(Requested(s).0, k - 1);
      ContinueIsRequest(t);
      RequestPass(t);
      PassUsesOneRefusal(t.answers);
      StubbornPass(t.answers);
      RequestPass(Requested(t).0);
    }
  }

  /** Whatever the observers answer and in whatever order, they cannot hold a request up for longer. */
  lemma {:induction false} NoMoreContinuesThanRefusals(s: State, k: nat)
    requires !s.continuing
    ensures var t := Continues(Requested(s).0, k);
      t.enabled == s.enabled ==> t.continuing && TotalRefusals(t.answers) + k + 1 == TotalRefusals(s.answers)
    ensures var t := Continues(Requested(s).0, k);
      t.enabled != s.enabled ==> !t.continuing
  {
    if k == 0 {
      RequestPass(s);
      PassUsesOneRefusal(s.answers);
    } else {
      NoMoreContinuesThanRefusals(s, k - 1);
      var t := Continues(Requested(s).0, k - 1);
      if t.continuing {
        ContinueIsRequest(t);
        RequestPass(t);
        PassUsesOneRefusal(t.answers);
      }
    }
  }
}
