/** src/lib/do-refactor-code.ts: the per-file pipeline (determine verdicts, filter, perform,
    validate, write) inside a bounded retry loop that re-attempts only nonsensical refactors. The
    three prompt stages are oracles: how each call settles is a parameter. */
module DoRefactorCode {
  import opened Errors
  import opened Outcomes
  import opened Catalog
  import Utils

  /** `retries: 3`; the loop gives up at attempt MAX_RETRIES + 1. */
  const MAX_RETRIES: nat := 3

  const UnknownErrorMessage := "Unknown error"

  /** How the stage calls of attempt n settle: `determineApplicableRefactors`,
      `performCodeRefactor` (its candidate, possibly null) and `isSensibleRefactor`, each given
      the arguments the pipeline passes that depend on earlier stages. */
  datatype StageOracles = StageOracles(
    determine: nat -> Result<seq<Verdict>>,
    perform: (nat, seq<RefactorItem>) -> Result<Option<string>>,
    validate: (nat, seq<RefactorItem>, string) -> Result<bool>)

  /** What the pipeline does that can be observed: the stage calls, with the refactors handed to
      them, and the write of the output file. */
  datatype Event =
    | Determined(attempt: nat)
    | Performed(attempt: nat, refactors: seq<RefactorItem>)
    | Validated(attempt: nat, refactors: seq<RefactorItem>, candidate: string)
    | Wrote(path: string, content: string)

  /** An attempt either returns a result to async-retry or throws. */
  datatype AttemptOutcome = Returned(result: Result<string>) | Threw(error: Error)

  datatype Attempt = Attempt(outcome: AttemptOutcome, events: seq<Event>)

  /** JavaScript truthiness of an optional string: present and not "". */
  predicate Truthy(s: Option<string>)
  {
    s.Some? && s.value != ""
  }

  /** The body of attempt `attempt` once its guard has let it through. */
  function AttemptBody(o: StageOracles, refactorDescription: seq<RefactorItem>, outputFilePath: Option<string>, attempt: nat): Attempt
  {
    match o.determine(attempt)
    case Err(e) => Attempt(Threw(e), [Determined(attempt)])
    case Ok(applyRefactorItems) =>
      match Utils.ApplicableRefactors(applyRefactorItems, refactorDescription)
      case Err(e) => Attempt(Threw(e), [Determined(attempt)])
      case Ok(applicableRefactors) =>
        if |applicableRefactors| == 0 then Attempt(Returned(Err(NewNoApplicableRefactors())), [Determined(attempt)])
        else PerformAndValidate(o, applicableRefactors, outputFilePath, attempt)
  }

  /** The rest of an attempt once the filter has kept some refactors. */
  function PerformAndValidate(o: StageOracles, applicableRefactors: seq<RefactorItem>, outputFilePath: Option<string>, attempt: nat): Attempt
  {
    match o.perform(attempt, applicableRefactors)
    case Err(e) => Attempt(Threw(e), [Determined(attempt), Performed(attempt, applicableRefactors)])
    case Ok(refactorResult) =>
      if !Truthy(refactorResult) then
        Attempt(Threw(NewNonsensicalRefactorError()), [Determined(attempt), Performed(attempt, applicableRefactors)])
      else
        var validated := [Determined(attempt), Performed(attempt, applicableRefactors), Validated(attempt, applicableRefactors, refactorResult.value)];
        match o.validate(attempt, applicableRefactors, refactorResult.value)
        case Err(e) => Attempt(Threw(e), validated)
        case Ok(sensible) =>
          if !sensible then Attempt(Threw(NewNonsensicalRefactorError()), validated)
          else if Truthy(outputFilePath) then
            Attempt(Returned(Ok(refactorResult.value)),
                    [Determined(attempt), Performed(attempt, applicableRefactors), Validated(attempt, applicableRefactors, refactorResult.value),
                     Wrote(outputFilePath.value, refactorResult.value)])
          else Attempt(Returned(Ok(refactorResult.value)), validated)
  }

  /** The guard at the top of every attempt: an earlier error that is not nonsensical, or the
      last attempt, ends the loop. */
  predicate GivesUp(attempt: nat, lastError: Option<Error>)
  {
    (lastError.Some? && !IsNonsensicalRefactorError(lastError.value)) || attempt == MAX_RETRIES + 1
  }

  /** How the whole call settles, how the retry loop ran, and on which attempt it stopped. */
  datatype Run = Run(result: Result<string>, events: seq<Event>, attempts: nat)

  /** async-retry over the attempt bodies, from attempt `attempt`, with `lastError` as `onRetry`
      last set it. */
  function RetryLoop(body: nat -> Attempt, attempt: nat, lastError: Option<Error>): Run
    requires 1 <= attempt <= MAX_RETRIES + 1
    decreases MAX_RETRIES + 1 - attempt
  {
    if GivesUp(attempt, lastError) then Run(Err(lastError.GetOr(PlainError(UnknownErrorMessage))), [], attempt)
    else
      match body(attempt).outcome
      case Returned(r) => Run(r, body(attempt).events, attempt)
      case Threw(e) =>
        var rest := RetryLoop(body, attempt + 1, Some(e));
        Run(rest.result, body(attempt).events + rest.events, rest.attempts)
  }

  /** The pipeline's attempt bodies for one file. */
  function Bodies(o: StageOracles, refactorDescription: seq<RefactorItem>, outputFilePath: Option<string>): nat -> Attempt
  {
    (attempt: nat) => AttemptBody(o, refactorDescription, outputFilePath, attempt)
  }

  /** The pipeline's retry loop from attempt `attempt`. */
  function RunFrom(o: StageOracles, refactorDescription: seq<RefactorItem>, outputFilePath: Option<string>,
                   attempt: nat, lastError: Option<Error>): Run
    requires 1 <= attempt <= MAX_RETRIES + 1
  {
    RetryLoop(Bodies(o, refactorDescription, outputFilePath), attempt, lastError)
  }

  function DoRefactorCodeSpec(o: StageOracles, refactorDescription: seq<RefactorItem>, outputFilePath: Option<string>): Run
  {
    RunFrom(o, refactorDescription, outputFilePath, 1, None)
  }

  /** One attempt's body, running the filter loop. */
  method RunAttempt(o: StageOracles, refactorDescription: seq<RefactorItem>, outputFilePath: Option<string>, attempt: nat)
    returns (body: Attempt)
    ensures body == AttemptBody(o, refactorDescription, outputFilePath, attempt)
  {
    var events := [Determined(attempt)];
    var determined := o.determine(attempt);
    if determined.Err? {
      return Attempt(Threw(determined.error), events);
    }
    var filtered := Utils.FilterRefactorsToThoseApplicable(determined.value, refactorDescription);
    if filtered.Err? {
      return Attempt(Threw(filtered.error), events);
    }
    var applicableRefactors := filtered.value;
    if |applicableRefactors| == 0 {
      return Attempt(Returned(Err(NewNoApplicableRefactors())), events);
    }
    events := events + [Performed(attempt, applicableRefactors)];
    var refactorResult := o.perform(attempt, applicableRefactors);
    if refactorResult.Err? {
      return Attempt(Threw(refactorResult.error), events);
    }
    if !Truthy(refactorResult.value) {
      return Attempt(Threw(NewNonsensicalRefactorError()), events);
    }
    var candidate := refactorResult.value.value;
    events := events + [Validated(attempt, applicableRefactors, candidate)];
    var sensible := o.validate(attempt, applicableRefactors, candidate);
    if sensible.Err? {
      return Attempt(Threw(sensible.error), events);
    }
    if !sensible.value {
      return Attempt(Threw(NewNonsensicalRefactorError()), events);
    }
    if Truthy(outputFilePath) {
      events := events + [Wrote(outputFilePath.value, candidate)];
    }
    return Attempt(Returned(Ok(candidate)), events);
  }

  /** What is left of the loop from attempt `attempt` on, after the events so far. */
  function Remaining(o: StageOracles, refactorDescription: seq<RefactorItem>, outputFilePath: Option<string>,
                     events: seq<Event>, attempt: nat, lastError: Option<Error>): Run
    requires 1 <= attempt <= MAX_RETRIES + 1
  {
    var rest := RunFrom(o, refactorDescription, outputFilePath, attempt, lastError);
    Run(rest.result, events + rest.events, rest.attempts)
  }

  /** An attempt past the guard that returns ends the loop with its result. */
  lemma ReturnedEndsLoop(o: StageOracles, refactorDescription: seq<RefactorItem>, outputFilePath: Option<string>,
                         events: seq<Event>, attempt: nat, lastError: Option<Error>, body: Attempt)
    requires 1 <= attempt <= MAX_RETRIES + 1 && !GivesUp(attempt, lastError)
    requires body == AttemptBody(o, refactorDescription, outputFilePath, attempt) && body.outcome.Returned?
    ensures Remaining(o, refactorDescription, outputFilePath, events, attempt, lastError)
         == Run(body.outcome.result, events + body.events, attempt)
  {
  }

  /** An attempt past the guard that throws hands its error to the next attempt. */
  lemma ThrewContinuesLoop(o: StageOracles, refactorDescription: seq<RefactorItem>, outputFilePath: Option<string>,
                           events: seq<Event>, attempt: nat, lastError: Option<Error>, body: Attempt)
    requires 1 <= attempt <= MAX_RETRIES + 1 && !GivesUp(attempt, lastError)
    requires body == AttemptBody(o, refactorDescription, outputFilePath, attempt) && body.outcome.Threw?
    ensures attempt + 1 <= MAX_RETRIES + 1
    ensures Remaining(o, refactorDescription, outputFilePath, events, attempt, lastError)
         == Remaining(o, refactorDescription, outputFilePath, events + body.events, attempt + 1, Some(body.outcome.error))
  {
    var next := RunFrom(o, refactorDescription, outputFilePath, attempt + 1, Some(body.outcome.error));
    assert events + (body.events + next.events) == (events + body.events) + next.events;
  }

  /** The guard ends the loop with the recorded error. */
  lemma GuardEndsLoop(o: StageOracles, refactorDescription: seq<RefactorItem>, outputFilePath: Option<string>,
                      events: seq<Event>, attempt: nat, lastError: Option<Error>)
    requires 1 <= attempt <= MAX_RETRIES + 1 && GivesUp(attempt, lastError)
    ensures Remaining(o, refactorDescription, outputFilePath, events, attempt, lastError)
         == Run(Err(lastError.GetOr(PlainError(UnknownErrorMessage))), events, attempt)
  {
    assert events + [] == events;
  }

  /** `doRefactorCode`: the retry loop, with `lastError` the variable `onRetry` assigns. */
  method DoRefactorCode(o: StageOracles, refactorDescription: seq<RefactorItem>, outputFilePath: Option<string>)
    returns (r: Result<string>, events: seq<Event>, attempts: nat)
    ensures Run(r, events, attempts) == DoRefactorCodeSpec(o, refactorDescription, outputFilePath)
  {
    var lastError: Option<Error> := None;
    var attemptNumber: nat := 1;
    events := [];
    ghost var whole := DoRefactorCodeSpec(o, refactorDescription, outputFilePath);
    assert whole == Remaining(o, refactorDescription, outputFilePath, events, attemptNumber, lastError);
    while true
      invariant 1 <= attemptNumber <= MAX_RETRIES + 1
      invariant whole == Remaining(o, refactorDescription, outputFilePath, events, attemptNumber, lastError)
      decreases MAX_RETRIES + 1 - attemptNumber
    {
      if GivesUp(attemptNumber, lastError) {
        GuardEndsLoop(o, refactorDescription, outputFilePath, events, attemptNumber, lastError);
        return Err(lastError.GetOr(PlainError(UnknownErrorMessage))), events, attemptNumber;
      }
      var body := RunAttempt(o, refactorDescription, outputFilePath, attemptNumber);
      match body.outcome {
        case Returned(res) =>
          ReturnedEndsLoop(o, refactorDescription, outputFilePath, events, attemptNumber, lastError, body);
          return res, events + body.events, attemptNumber;
        case Threw(e) =>
          ThrewContinuesLoop(o, refactorDescription, outputFilePath, events, attemptNumber, lastError, body);
          events := events + body.events;
          lastError := Some(e);
          attemptNumber := attemptNumber + 1;
      }
    }
  }

  // ---------------------------------------------------------------------------------------------
  // properties of a run

  /** Number of attempt bodies that ran (each starts by asking for verdicts). */
  function BodiesRun(events: seq<Event>): nat
  {
    if |events| == 0 then 0 else (if events[0].Determined? then 1 else 0) + BodiesRun(events[1..])
  }

  lemma {:induction false} BodiesRunAppend(a: seq<Event>, b: seq<Event>)
    ensures BodiesRun(a + b) == BodiesRun(a) + BodiesRun(b)
  {
    if |a| == 0 {
      assert a + b == b;
    } else {
      assert (a + b)[1..] == a[1..] + b;
      BodiesRunAppend(a[1..], b);
    }
  }

  lemma {:induction false} NoBodyRun(events: seq<Event>)
    requires forall k :: 0 <= k < |events| ==> !events[k].Determined?
    ensures BodiesRun(events) == 0
  {
    if |events| > 0 {
      NoBodyRun(events[1..]);
    }
  }

  /** The perform and validate part asks for verdicts once, at its start. */
  lemma PerformRunsOnce(o: StageOracles, applicableRefactors: seq<RefactorItem>, outputFilePath: Option<string>, attempt: nat)
    ensures BodiesRun(PerformAndValidate(o, applicableRefactors, outputFilePath, attempt).events) == 1
  {
    var events := PerformAndValidate(o, applicableRefactors, outputFilePath, attempt).events;
    assert events[0] == Determined(attempt);
    NoBodyRun(events[1..]);
  }

  /** Every attempt that gets past the guard asks for verdicts exactly once. */
  lemma BodyRunsOnce(o: StageOracles, refactorDescription: seq<RefactorItem>, outputFilePath: Option<string>, attempt: nat)
    ensures BodiesRun(AttemptBody(o, refactorDescription, outputFilePath, attempt).events) == 1
  {
    match o.determine(attempt)
    case Err(_) =>
      assert BodiesRun([Determined(attempt)]) == 1 + BodiesRun([]);
    case Ok(applyRefactorItems) =>
      match Utils.ApplicableRefactors(applyRefactorItems, refactorDescription)
      case Err(_) =>
        assert BodiesRun([Determined(attempt)]) == 1 + BodiesRun([]);
      case Ok(applicableRefactors) =>
        if |applicableRefactors| == 0 {
          assert BodiesRun([Determined(attempt)]) == 1 + BodiesRun([]);
        } else {
          PerformRunsOnce(o, applicableRefactors, outputFilePath, attempt);
        }
  }

  /** From attempt n on, a loop whose bodies each run once runs at most MAX_RETRIES + 1 - n
      bodies and stops by attempt MAX_RETRIES + 1. */
  lemma {:induction false} RetryLoopBounded(body: nat -> Attempt, attempt: nat, lastError: Option<Error>)
    requires 1 <= attempt <= MAX_RETRIES + 1
    requires forall n :: 1 <= n <= MAX_RETRIES ==> BodiesRun(body(n).events) == 1
    ensures var run := RetryLoop(body, attempt, lastError);
      BodiesRun(run.events) <= MAX_RETRIES + 1 - attempt && attempt <= run.attempts <= MAX_RETRIES + 1
    decreases MAX_RETRIES + 1 - attempt
  {
    if !GivesUp(attempt, lastError) && body(attempt).outcome.Threw? {
      var rest := RetryLoop(body, attempt + 1, Some(body(attempt).outcome.error));
      RetryLoopBounded(body, attempt + 1, Some(body(attempt).outcome.error));
      BodiesRunAppend(body(attempt).events, rest.events);
    }
  }

  /** The pipeline's loop from attempt n on runs at most MAX_RETRIES + 1 - n bodies. */
  lemma RunFromBounded(o: StageOracles, refactorDescription: seq<RefactorItem>, outputFilePath: Option<string>,
                       attempt: nat, lastError: Option<Error>)
    requires 1 <= attempt <= MAX_RETRIES + 1
    ensures var run := RunFrom(o, refactorDescription, outputFilePath, attempt, lastError);
      BodiesRun(run.events) <= MAX_RETRIES + 1 - attempt && attempt <= run.attempts <= MAX_RETRIES + 1
  {
    var body := Bodies(o, refactorDescription, outputFilePath);
    forall n | 1 <= n <= MAX_RETRIES ensures BodiesRun(body(n).events) == 1 {
      BodyRunsOnce(o, refactorDescription, outputFilePath, n);
    }
    RetryLoopBounded(body, attempt, lastError);
  }

  lemma AtMostThreeBodies(o: StageOracles, refactorDescription: seq<RefactorItem>, outputFilePath: Option<string>)
    ensures var run := DoRefactorCodeSpec(o, refactorDescription, outputFilePath);
      BodiesRun(run.events) <= MAX_RETRIES && 1 <= run.attempts <= MAX_RETRIES + 1
  {
    RunFromBounded(o, refactorDescription, outputFilePath, 1, None);
  }

  /** An attempt that throws an error other than a nonsensical refactor ends the call on the very
      next attempt, with that error and without another stage call. */
  lemma OtherErrorsSurfaceNextAttempt(o: StageOracles, refactorDescription: seq<RefactorItem>, outputFilePath: Option<string>,
                                      attempt: nat, lastError: Option<Error>)
    requires 1 <= attempt <= MAX_RETRIES && !GivesUp(attempt, lastError)
    requires var body := AttemptBody(o, refactorDescription, outputFilePath, attempt);
      body.outcome.Threw? && !IsNonsensicalRefactorError(body.outcome.error)
    ensures var body := AttemptBody(o, refactorDescription, outputFilePath, attempt);
      RunFrom(o, refactorDescription, outputFilePath, attempt, lastError) == Run(Err(body.outcome.error), body.events, attempt + 1)
  {
    var body := AttemptBody(o, refactorDescription, outputFilePath, attempt);
    var bodies := Bodies(o, refactorDescription, outputFilePath);
    assert bodies(attempt) == body;
    assert RetryLoop(bodies, attempt + 1, Some(body.outcome.error)) == Run(Err(body.outcome.error), [], attempt + 1);
    assert body.events + [] == body.events;
  }

  /** Nonsensical refactors are re-attempted: when the first k - 1 bodies throw nonsensical
      refactor errors and body k returns, the call settles as body k returned, on attempt k. */
  lemma NonsensicalIsRetried(o: StageOracles, refactorDescription: seq<RefactorItem>, outputFilePath: Option<string>, k: nat)
    requires 1 <= k <= MAX_RETRIES
    requires forall j :: 1 <= j < k ==> AttemptBody(o, refactorDescription, outputFilePath, j).outcome == Threw(NewNonsensicalRefactorError())
    requires AttemptBody(o, refactorDescription, outputFilePath, k).outcome.Returned?
    ensures var run := DoRefactorCodeSpec(o, refactorDescription, outputFilePath);
      run.result == AttemptBody(o, refactorDescription, outputFilePath, k).outcome.result && run.attempts == k
  {
    NewNonsensicalRefactorErrorIs();
    if k == 3 {
      assert !GivesUp(2, Some(NewNonsensicalRefactorError()));
      assert !GivesUp(3, Some(NewNonsensicalRefactorError()));
    } else if k == 2 {
      assert !GivesUp(2, Some(NewNonsensicalRefactorError()));
    }
  }

  /** When every body throws a nonsensical refactor error, the call gives up on attempt 4 with
      that error, after three bodies. */
  lemma AlwaysNonsensicalGivesUp(o: StageOracles, refactorDescription: seq<RefactorItem>, outputFilePath: Option<string>)
    requires forall j :: 1 <= j <= MAX_RETRIES ==> AttemptBody(o, refactorDescription, outputFilePath, j).outcome == Threw(NewNonsensicalRefactorError())
    ensures var run := DoRefactorCodeSpec(o, refactorDescription, outputFilePath);
      run.result == Err(NewNonsensicalRefactorError()) && run.attempts == MAX_RETRIES + 1 && BodiesRun(run.events) == MAX_RETRIES
  {
    NewNonsensicalRefactorErrorIs();
    var b1 := AttemptBody(o, refactorDescription, outputFilePath, 1);
    var b2 := AttemptBody(o, refactorDescription, outputFilePath, 2);
    var b3 := AttemptBody(o, refactorDescription, outputFilePath, 3);
    assert !GivesUp(2, Some(NewNonsensicalRefactorError()));
    assert !GivesUp(3, Some(NewNonsensicalRefactorError()));
    var run := DoRefactorCodeSpec(o, refactorDescription, outputFilePath);
    assert run.events == b1.events + (b2.events + (b3.events + []));
    BodyRunsOnce(o, refactorDescription, outputFilePath, 1);
    BodyRunsOnce(o, refactorDescription, outputFilePath, 2);
    BodyRunsOnce(o, refactorDescription, outputFilePath, 3);
    BodiesRunAppend(b3.events, []);
    BodiesRunAppend(b2.events, b3.events + []);
    BodiesRunAppend(b1.events, b2.events + (b3.events + []));
  }

  /** An empty filtered list ends the call on that attempt with `NoApplicableRefactors`, and
      neither the perform nor the validate stage is called. */
  lemma NoApplicableRefactorsIsTerminal(o: StageOracles, refactorDescription: seq<RefactorItem>, outputFilePath: Option<string>,
                                        attempt: nat, lastError: Option<Error>)
    requires 1 <= attempt <= MAX_RETRIES && !GivesUp(attempt, lastError)
    requires o.determine(attempt).Ok? && Utils.ApplicableRefactors(o.determine(attempt).value, refactorDescription) == Ok([])
    ensures RunFrom(o, refactorDescription, outputFilePath, attempt, lastError)
         == Run(Err(NewNoApplicableRefactors()), [Determined(attempt)], attempt)
  {
  }

  /** A perform or validate call receives exactly the refactors that the filter kept from that
      attempt's verdicts, and a validate call sees only a non-empty candidate that the perform
      stage produced. */
  predicate SeesFilteredRefactors(o: StageOracles, refactorDescription: seq<RefactorItem>, e: Event)
  {
    (e.Performed? ==>
      o.determine(e.attempt).Ok? && |e.refactors| > 0
      && Utils.ApplicableRefactors(o.determine(e.attempt).value, refactorDescription) == Ok(e.refactors))
    && (e.Validated? ==>
      o.determine(e.attempt).Ok? && |e.refactors| > 0
      && Utils.ApplicableRefactors(o.determine(e.attempt).value, refactorDescription) == Ok(e.refactors)
      && o.perform(e.attempt, e.refactors) == Ok(Some(e.candidate)) && e.candidate != "")
  }

  /** Every call of the perform and validate stages receives exactly the refactors that the
      filter kept from that attempt's verdicts (never the full catalog unless all apply), and the
      validator sees only a non-empty candidate that the perform stage produced. */
  predicate StagesSeeFilteredRefactors(o: StageOracles, refactorDescription: seq<RefactorItem>, events: seq<Event>)
  {
    forall i :: 0 <= i < |events| ==> SeesFilteredRefactors(o, refactorDescription, events[i])
  }

  /** The perform and validate part of an attempt hands its stages the refactors the filter kept. */
  lemma PerformStagesSeeFilteredRefactors(o: StageOracles, refactorDescription: seq<RefactorItem>, applicableRefactors: seq<RefactorItem>,
                                          outputFilePath: Option<string>, attempt: nat)
    requires o.determine(attempt).Ok? && |applicableRefactors| > 0
    requires Utils.ApplicableRefactors(o.determine(attempt).value, refactorDescription) == Ok(applicableRefactors)
    ensures StagesSeeFilteredRefactors(o, refactorDescription, PerformAndValidate(o, applicableRefactors, outputFilePath, attempt).events)
  {
    var events := PerformAndValidate(o, applicableRefactors, outputFilePath, attempt).events;
    assert SeesFilteredRefactors(o, refactorDescription, Performed(attempt, applicableRefactors));
    match o.perform(attempt, applicableRefactors)
    case Err(_) =>
    case Ok(refactorResult) =>
      if Truthy(refactorResult) {
        assert SeesFilteredRefactors(o, refactorDescription, Validated(attempt, applicableRefactors, refactorResult.value));
      }
  }

  lemma BodyStagesSeeFilteredRefactors(o: StageOracles, refactorDescription: seq<RefactorItem>, outputFilePath: Option<string>, attempt: nat)
    ensures StagesSeeFilteredRefactors(o, refactorDescription, AttemptBody(o, refactorDescription, outputFilePath, attempt).events)
  {
    match o.determine(attempt)
    case Err(_) =>
      assert SeesFilteredRefactors(o, refactorDescription, Determined(attempt));
    case Ok(applyRefactorItems) =>
      match Utils.ApplicableRefactors(applyRefactorItems, refactorDescription)
      case Err(_) =>
        assert SeesFilteredRefactors(o, refactorDescription, Determined(attempt));
      case Ok(applicableRefactors) =>
        if |applicableRefactors| == 0 {
          assert SeesFilteredRefactors(o, refactorDescription, Determined(attempt));
        } else {
          PerformStagesSeeFilteredRefactors(o, refactorDescription, applicableRefactors, outputFilePath, attempt);
        }
  }

  /** An event property that every body's events have holds of all the loop's events. */
  lemma {:induction false} RetryLoopKeepsEventProperty(body: nat -> Attempt, ok: Event -> bool, attempt: nat, lastError: Option<Error>)
    requires 1 <= attempt <= MAX_RETRIES + 1
    requires forall n, i :: 1 <= n <= MAX_RETRIES && 0 <= i < |body(n).events| ==> ok(body(n).events[i])
    ensures var events := RetryLoop(body, attempt, lastError).events;
      forall i :: 0 <= i < |events| ==> ok(events[i])
    decreases MAX_RETRIES + 1 - attempt
  {
    if !GivesUp(attempt, lastError) && body(attempt).outcome.Threw? {
      var first := body(attempt).events;
      var rest := RetryLoop(body, attempt + 1, Some(body(attempt).outcome.error)).events;
      RetryLoopKeepsEventProperty(body, ok, attempt + 1, Some(body(attempt).outcome.error));
      assert forall i :: |first| <= i < |first + rest| ==> (first + rest)[i] == rest[i - |first|];
    }
  }

  lemma StagesSeeOnlyFilteredRefactors(o: StageOracles, refactorDescription: seq<RefactorItem>, outputFilePath: Option<string>)
    ensures StagesSeeFilteredRefactors(o, refactorDescription, DoRefactorCodeSpec(o, refactorDescription, outputFilePath).events)
  {
    var body := Bodies(o, refactorDescription, outputFilePath);
    var ok := (e: Event) => SeesFilteredRefactors(o, refactorDescription, e);
    forall n, i | 1 <= n <= MAX_RETRIES && 0 <= i < |body(n).events| ensures ok(body(n).events[i]) {
      BodyStagesSeeFilteredRefactors(o, refactorDescription, outputFilePath, n);
    }
    RetryLoopKeepsEventProperty(body, ok, 1, None);
  }

  /** The output file is written at most once, only as the last thing the call does, only with
      the accepted code, and only when the call resolves with that code and `outputFilePath` is
      set; a call that resolves with code and has `outputFilePath` set did write it. Accepted code
      was both produced by the perform stage and judged sensible by the validate stage. */
  predicate WritesOnlyAccepted(o: StageOracles, outputFilePath: Option<string>, run: Run)
  {
    (forall i :: 0 <= i < |run.events| && run.events[i].Wrote? ==>
       i == |run.events| - 1 && run.result == Ok(run.events[i].content) && Truthy(outputFilePath)
       && run.events[i].path == outputFilePath.value)
    && (run.result.Ok? && Truthy(outputFilePath) ==>
       |run.events| > 0 && run.events[|run.events| - 1] == Wrote(outputFilePath.value, run.result.value))
    && (run.result.Ok? ==>
       exists i :: 0 <= i < |run.events| && run.events[i].Validated? && run.events[i].candidate == run.result.value
         && o.validate(run.events[i].attempt, run.events[i].refactors, run.result.value) == Ok(true))
  }

  lemma BodyWritesOnlyAccepted(o: StageOracles, refactorDescription: seq<RefactorItem>, outputFilePath: Option<string>, attempt: nat)
    ensures var body := AttemptBody(o, refactorDescription, outputFilePath, attempt);
      body.outcome.Threw? ==> forall i :: 0 <= i < |body.events| ==> !body.events[i].Wrote?
    ensures var body := AttemptBody(o, refactorDescription, outputFilePath, attempt);
      body.outcome.Returned? ==> WritesOnlyAccepted(o, outputFilePath, Run(body.outcome.result, body.events, attempt))
  {
    var body := AttemptBody(o, refactorDescription, outputFilePath, attempt);
    if body.outcome.Returned? && body.outcome.result.Ok? {
      var i := 2;
      assert body.events[i].Validated? && body.events[i].candidate == body.outcome.result.value;
    }
  }

  /** Events of a failed attempt before a run keep what the run says about writes. */
  lemma WritesOnlyAcceptedAfterFailure(o: StageOracles, outputFilePath: Option<string>, failed: seq<Event>, rest: Run)
    requires forall i :: 0 <= i < |failed| ==> !failed[i].Wrote?
    requires WritesOnlyAccepted(o, outputFilePath, rest)
    ensures WritesOnlyAccepted(o, outputFilePath, Run(rest.result, failed + rest.events, rest.attempts))
  {
    var events := failed + rest.events;
    assert forall i :: |failed| <= i < |events| ==> events[i] == rest.events[i - |failed|];
    if rest.result.Ok? {
      var j :| 0 <= j < |rest.events| && rest.events[j].Validated? && rest.events[j].candidate == rest.result.value
        && o.validate(rest.events[j].attempt, rest.events[j].refactors, rest.result.value) == Ok(true);
      assert events[|failed| + j] == rest.events[j];
    }
  }

  /** A loop whose failed bodies write nothing and whose returning bodies write only what they
      accept writes only what it accepts. */
  lemma {:induction false} RetryLoopWritesOnlyAccepted(body: nat -> Attempt, o: StageOracles, outputFilePath: Option<string>,
                                                       attempt: nat, lastError: Option<Error>)
    requires 1 <= attempt <= MAX_RETRIES + 1
    requires forall n :: 1 <= n <= MAX_RETRIES && body(n).outcome.Threw? ==>
      forall i :: 0 <= i < |body(n).events| ==> !body(n).events[i].Wrote?
    requires forall n :: 1 <= n <= MAX_RETRIES && body(n).outcome.Returned? ==>
      WritesOnlyAccepted(o, outputFilePath, Run(body(n).outcome.result, body(n).events, n))
    ensures WritesOnlyAccepted(o, outputFilePath, RetryLoop(body, attempt, lastError))
    decreases MAX_RETRIES + 1 - attempt
  {
    if !GivesUp(attempt, lastError) && body(attempt).outcome.Threw? {
      var rest := RetryLoop(body, attempt + 1, Some(body(attempt).outcome.error));
      RetryLoopWritesOnlyAccepted(body, o, outputFilePath, attempt + 1, Some(body(attempt).outcome.error));
      WritesOnlyAcceptedAfterFailure(o, outputFilePath, body(attempt).events, rest);
    }
  }

  lemma WritesOnlyAfterAcceptance(o: StageOracles, refactorDescription: seq<RefactorItem>, outputFilePath: Option<string>)
    ensures WritesOnlyAccepted(o, outputFilePath, DoRefactorCodeSpec(o, refactorDescription, outputFilePath))
  {
    var body := Bodies(o, refactorDescription, outputFilePath);
    forall n | 1 <= n <= MAX_RETRIES
      ensures body(n).outcome.Threw? ==> forall i :: 0 <= i < |body(n).events| ==> !body(n).events[i].Wrote?
      ensures body(n).outcome.Returned? ==> WritesOnlyAccepted(o, outputFilePath, Run(body(n).outcome.result, body(n).events, n))
    {
      BodyWritesOnlyAccepted(o, refactorDescription, outputFilePath, n);
    }
    RetryLoopWritesOnlyAccepted(body, o, outputFilePath, 1, None);
  }

  /** The loop's error is one a body returned or the last one a body threw: the "Unknown error"
      fallback is never used. */
  lemma {:induction false} RetryLoopErrorsComeFromAttempts(body: nat -> Attempt, attempt: nat, lastError: Option<Error>)
    requires 1 <= attempt <= MAX_RETRIES + 1
    requires attempt > 1 ==> lastError.Some? && body(attempt - 1).outcome == Threw(lastError.value)
    requires attempt == 1 ==> lastError.None?
    ensures var run := RetryLoop(body, attempt, lastError);
      run.result.Err? ==>
        exists k :: 1 <= k <= MAX_RETRIES && (body(k).outcome == Threw(run.result.error) || body(k).outcome == Returned(run.result))
    decreases MAX_RETRIES + 1 - attempt
  {
    var run := RetryLoop(body, attempt, lastError);
    if GivesUp(attempt, lastError) {
      assert attempt > 1;
      assert body(attempt - 1).outcome == Threw(run.result.error);
    } else if body(attempt).outcome.Threw? {
      RetryLoopErrorsComeFromAttempts(body, attempt + 1, Some(body(attempt).outcome.error));
    } else {
      assert body(attempt).outcome == Returned(run.result);
    }
  }

  /** The only error an attempt returns rather than throws is `NoApplicableRefactors`. */
  lemma BodyReturnsOnlyNoApplicable(o: StageOracles, refactorDescription: seq<RefactorItem>, outputFilePath: Option<string>, attempt: nat)
    ensures var body := AttemptBody(o, refactorDescription, outputFilePath, attempt);
      body.outcome.Returned? && body.outcome.result.Err? ==> body.outcome.result.error == NewNoApplicableRefactors()
  {
  }

  /** The call never rejects, and an error it resolves with is `NoApplicableRefactors` or one that
      an attempt threw: the "Unknown error" fallback is never used. */
  lemma ErrorsComeFromAttempts(o: StageOracles, refactorDescription: seq<RefactorItem>, outputFilePath: Option<string>)
    ensures var run := DoRefactorCodeSpec(o, refactorDescription, outputFilePath);
      run.result.Err? ==>
        (run.result.error == NewNoApplicableRefactors()
         || exists k :: 1 <= k <= MAX_RETRIES && AttemptBody(o, refactorDescription, outputFilePath, k).outcome == Threw(run.result.error))
  {
    var body := Bodies(o, refactorDescription, outputFilePath);
    var run := DoRefactorCodeSpec(o, refactorDescription, outputFilePath);
    RetryLoopErrorsComeFromAttempts(body, 1, None);
    if run.result.Err? {
      var k :| 1 <= k <= MAX_RETRIES && (body(k).outcome == Threw(run.result.error) || body(k).outcome == Returned(run.result));
      BodyReturnsOnlyNoApplicable(o, refactorDescription, outputFilePath, k);
    }
  }

  /** A candidate that is null or empty, or that the validator rejects, makes the attempt throw a
      nonsensical refactor error; a validator that fails makes it throw that failure. */
  lemma RejectedCandidatesAreNonsensical(o: StageOracles, refactorDescription: seq<RefactorItem>, outputFilePath: Option<string>,
                                         attempt: nat, applicable: seq<RefactorItem>)
    requires o.determine(attempt).Ok? && Utils.ApplicableRefactors(o.determine(attempt).value, refactorDescription) == Ok(applicable)
    requires |applicable| > 0 && o.perform(attempt, applicable).Ok?
    ensures var candidate := o.perform(attempt, applicable).value;
      !Truthy(candidate) ==> AttemptBody(o, refactorDescription, outputFilePath, attempt).outcome == Threw(NewNonsensicalRefactorError())
    ensures var candidate := o.perform(attempt, applicable).value;
      (Truthy(candidate) && o.validate(attempt, applicable, candidate.value) == Ok(false))
      ==> AttemptBody(o, refactorDescription, outputFilePath, attempt).outcome == Threw(NewNonsensicalRefactorError())
    ensures var candidate := o.perform(attempt, applicable).value;
      (Truthy(candidate) && o.validate(attempt, applicable, candidate.value) == Ok(true))
      ==> AttemptBody(o, refactorDescription, outputFilePath, attempt).outcome == Returned(Ok(candidate.value))
  {
  }
}
