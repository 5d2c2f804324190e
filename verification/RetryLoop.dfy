/**
 The retry loop: two attempt tracks inside one bounded loop, under a total budget.

 What the loop does not decide is an input: for each attempt its result, the clock readings around it, and the pause the
 backoff scheduler draws for it.
 */
module RetryLoop {
  import opened Common
  import opened CallContract
  import opened RetryClassifier

  datatype Policy = Policy(maxAttempts: nat, rateLimitMaxAttempts: nat)

  /** The longest time the clock type can hold, in nanoseconds. */
  const DURATION_MAX: nat := (U64_LIMIT - 1) * 1_000_000_000 + 999_999_999

  /** One attempt: the time since the call began when it starts, what it returns, the time when its pause is decided,
      and the pause drawn for it. */
  datatype Attempt<+R> = Attempt(start: nat, result: CallResult<R>, end: nat, pause: nat)

  /** A pause fits when it ends before the budget does; a sum the clock type cannot hold does not fit. */
  predicate BudgetAllowsSleep(budget: Option<nat>, elapsed: nat, pause: nat) {
    budget.None? || (elapsed + pause <= DURATION_MAX && elapsed + pause < budget.value)
  }

  /** A call as the loop sees it. */
  datatype Run<!R> = Run(policy: Policy, budget: Option<nat>, classify: CallResult<R> -> RetryDecision,
                         script: seq<Attempt<R>>) {

    /** The policy is one `GrpcRetryConfig` accepts, and the script covers every attempt it allows. */
    predicate Valid() {
      policy.maxAttempts >= 1 && policy.rateLimitMaxAttempts >= 1 && |script| == policy.maxAttempts
    }

    function Decision(j: nat): RetryDecision
      requires j < |script|
    {
      classify(script[j].result)
    }

    /** How many of the first `n` attempts had this decision. */
    function Count(decision: RetryDecision, n: nat): nat
      requires n <= |script|
    {
      if n == 0 then 0 else Count(decision, n - 1) + if Decision(n - 1) == decision then 1 else 0
    }

    predicate Retryable(j: nat)
      requires j < |script|
    {
      Decision(j) == Retry || Decision(j) == RetryRateLimit
    }

    /** The track of the attempt has room for another one. */
    predicate TrackHasRoom(j: nat)
      requires j < |script|
    {
      match Decision(j)
      case Retry => Count(Retry, j) + 1 < policy.maxAttempts
      case RetryRateLimit => Count(RetryRateLimit, j) + 1 <= policy.rateLimitMaxAttempts
      case _ => false
    }

    predicate PauseFits(j: nat)
      requires j < |script|
    {
      BudgetAllowsSleep(budget, script[j].end, script[j].pause)
    }

    predicate PausesAfter(j: nat)
      requires j < |script|
    {
      TrackHasRoom(j) && PauseFits(j)
    }

    /** There is time left for the attempt. */
    predicate CanStart(j: nat)
      requires j < |script|
    {
      budget.None? || script[j].start < budget.value
    }

    /** Another attempt follows this one. */
    predicate GoesOn(j: nat)
      requires j < |script|
    {
      j + 1 < |script| && PausesAfter(j) && CanStart(j + 1)
    }

    function MadeFrom(j: nat): (n: nat)
      requires j < |script|
      ensures j < n <= |script|
      decreases |script| - j
    {
      if GoesOn(j) then MadeFrom(j + 1) else j + 1
    }

    /** How many attempts are made. */
    function Made(): (n: nat)
      ensures n <= |script|
    {
      if script == [] || !CanStart(0) then 0 else MadeFrom(0)
    }

    function Timeout(j: nat): Option<nat>
      requires j < |script| && CanStart(j)
    {
      if budget.None? then None else Some(budget.value - script[j].start)
    }

    /** The failure the loop makes itself when it has none to return. */
    function OwnFailure(): CallError {
      var n := Made();
      Transport(if n < |script| && !CanStart(n) && (n > 0 ==> PausesAfter(n - 1)) then DeadlineExceeded else Internal)
    }

    /** What the call returns. */
    function Outcome(): CallResult<R> {
      var n := Made();
      if n > 0 && (script[n - 1].result.Err? || !Retryable(n - 1)) then script[n - 1].result else Err(OwnFailure())
    }

    /** The pauses of the first `n` attempts. */
    function PausesOf(n: nat): seq<nat>
      requires n <= |script|
    {
      if n == 0 then [] else PausesOf(n - 1) + if PausesAfter(n - 1) then [script[n - 1].pause] else []
    }

    // ---------------------------------------------------------------- what the loop computes

    lemma {:induction false} GoingOn(i: nat, j: nat)
      requires i <= j < |script| && forall k :: i <= k < j ==> GoesOn(k)
      ensures MadeFrom(i) == MadeFrom(j)
      decreases j - i
    {
      if i < j {
        GoingOn(i + 1, j);
      }
    }

    lemma {:induction false} MadeIsFirstStop(j: nat)
      requires j < |script|
      ensures forall k :: j <= k < MadeFrom(j) - 1 ==> GoesOn(k)
      ensures !GoesOn(MadeFrom(j) - 1)
      decreases |script| - j
    {
      if GoesOn(j) {
        MadeIsFirstStop(j + 1);
      }
    }

    /** What every attempt but the last one made went through. */
    lemma Continues()
      requires Made() > 0
      ensures forall j :: 0 <= j < Made() ==> CanStart(j)
      ensures forall j :: 0 <= j < Made() - 1 ==> TrackHasRoom(j)
      ensures forall j :: 0 <= j < Made() - 1 ==> PausesAfter(j)
      ensures forall j :: 0 <= j < Made() - 1 ==> Retryable(j)
      ensures !GoesOn(Made() - 1)
    {
      MadeIsFirstStop(0);
      forall j | 0 <= j < Made() - 1 ensures TrackHasRoom(j) && PausesAfter(j) && Retryable(j) && CanStart(j + 1) {
        assert GoesOn(j);
      }
      forall j | 0 <= j < Made() ensures CanStart(j) {
        assert j > 0 ==> GoesOn(j - 1);
      }
    }

    lemma {:induction false} CountsFit(n: nat)
      requires n <= |script|
      ensures Count(Retry, n) + Count(RetryRateLimit, n) <= n
    {
      if n > 0 {
        CountsFit(n - 1);
      }
    }

    lemma {:induction false} RetriedAreCounted(n: nat)
      requires n <= |script| && forall j :: 0 <= j < n ==> Retryable(j)
      ensures Count(Retry, n) + Count(RetryRateLimit, n) == n
    {
      if n > 0 {
        RetriedAreCounted(n - 1);
        assert Retryable(n - 1);
      }
    }

    lemma {:induction false} RateLimitsStayAllowed(n: nat)
      requires n <= |script| && forall j :: 0 <= j < n ==> TrackHasRoom(j)
      ensures Count(RetryRateLimit, n) <= policy.rateLimitMaxAttempts
    {
      if n > 0 {
        RateLimitsStayAllowed(n - 1);
        assert TrackHasRoom(n - 1);
      }
    }

    /** Without a deadline the standard track never ends a call on its own: the call stops at the first result that is
        not retried, at the rate-limited result that is one too many, or at the last attempt the policy allows. */
    lemma StopsWithoutBudget()
      requires Valid() && budget.None?
      ensures var n := Made();
              && 1 <= n <= policy.maxAttempts
              && (forall j :: 0 <= j < n ==> CanStart(j) && Timeout(j) == None)
              && (forall j :: 0 <= j < n - 1 ==> Retryable(j))
              && (forall j :: 0 <= j < n ==> Count(RetryRateLimit, j) <= policy.rateLimitMaxAttempts)
              && (!Retryable(n - 1)
                  || Count(RetryRateLimit, n) == policy.rateLimitMaxAttempts + 1
                  || n == policy.maxAttempts)
    {
      Continues();
      var n := Made();
      CountsFit(n - 1);
      forall j | 0 <= j < n ensures Count(RetryRateLimit, j) <= policy.rateLimitMaxAttempts {
        RateLimitsStayAllowed(j);
      }
    }

    /** With a deadline or without, a call that ends after an attempt has one of these reasons: its result is not
        retried, the policy allows no more, the pause would not end before the budget does or is longer than the clock
        can say, or the budget was used up when the pause was over. */
    lemma StopsForAReason()
      requires Valid() && Made() > 0
      ensures var n := Made();
              || Decision(n - 1) in {Success, Terminal}
              || n == policy.maxAttempts
              || Count(RetryRateLimit, n) == policy.rateLimitMaxAttempts + 1
              || (budget.Some? && (script[n - 1].end + script[n - 1].pause >= budget.value
                                   || script[n - 1].end + script[n - 1].pause > DURATION_MAX
                                   || script[n].start >= budget.value))
    {
      Continues();
      CountsFit(Made() - 1);
      RateLimitsStayAllowed(Made() - 1);
    }

    /** The loop counts its decisions. */
    lemma {:induction false} CountIsHowMany(decision: RetryDecision, n: nat)
      requires n <= |script|
      ensures Count(decision, n) == |set j: nat | j < n && Decision(j) == decision|
    {
      if n > 0 {
        CountIsHowMany(decision, n - 1);
        var before := set j: nat | j < n - 1 && Decision(j) == decision;
        var counted := set j: nat | j < n && Decision(j) == decision;
        hide Decision;
        assert counted - {n - 1} == before;
        assert n - 1 in counted <==> Decision(n - 1) == decision;
      }
    }

    /** When the last attempt made is a success that is retried, the caller gets a failure of the loop's own: that the
        deadline passed, if it did so during the pause, and an internal one otherwise. */
    lemma RetriedSuccessFails()
      requires Valid() && Made() > 0 && Retryable(Made() - 1) && script[Made() - 1].result.Ok?
      ensures var n := Made();
              Outcome() == Err(Transport(
                if n < |script| && PausesAfter(n - 1) && budget.Some? && script[n].start >= budget.value
                then DeadlineExceeded else Internal))
    {
    }

    /** The classifier never retries a success. */
    ghost predicate RetriesOnlyErrors() {
      forall j :: 0 <= j < |script| ==> (Retryable(j) ==> script[j].result.Err?)
    }

    /** The caller gets the result of the last attempt made; the failure of the loop's own is returned exactly when no
        attempt was made, or the classifier retried a success. */
    lemma ReturnsTheLastResult()
      requires Valid()
      ensures var n := Made();
              if n == 0 then Outcome() == Err(Transport(DeadlineExceeded))
              else Retryable(n - 1) && script[n - 1].result.Ok? <==> Outcome() != script[n - 1].result
      ensures RetriesOnlyErrors() && Made() > 0 ==> Outcome() == script[Made() - 1].result
      ensures Made() == 0 <==> budget.Some? && script[0].start >= budget.value
    {
    }

    /** Such a classifier loses the success: the caller gets a failure for a call that went well. */
    static lemma RetriedSuccessIsLost(value: R)
      ensures var run := Run(Policy(1, 1), None, (_: CallResult<R>) => Retry, [Attempt(0, Ok(value), 0, 0)]);
              run.Valid() && run.Made() == 1 && run.Outcome() == Err(Transport(Internal))
    {
      var run := Run(Policy(1, 1), None, (_: CallResult<R>) => Retry, [Attempt(0, Ok(value), 0, 0)]);
      assert run.Retryable(0);
    }

    /** The standard classifier never retries a success. */
    lemma StandardRunsRetryOnlyErrors()
      requires forall j :: 0 <= j < |script| ==> Decision(j) == Classify(script[j].result)
      ensures RetriesOnlyErrors()
    {
      hide Classify;
      forall j | 0 <= j < |script| ensures Retryable(j) ==> script[j].result.Err? {
        OnlyErrorsAreRetried(script[j].result);
      }
    }

    /** With the standard classifier the caller always gets the result of the last attempt, and a failure of the
        loop's own only when the budget left no time for a first one. */
    lemma StandardRunsReturnTheLast()
      requires Valid() && forall j :: 0 <= j < |script| ==> Decision(j) == Classify(script[j].result)
      ensures Outcome() == if Made() > 0 then script[Made() - 1].result else Err(Transport(DeadlineExceeded))
      ensures Made() == 0 <==> budget.Some? && budget.value <= script[0].start
    {
      hide Classify, Outcome;
      StandardRunsRetryOnlyErrors();
      ReturnsTheLastResult();
    }

    // ---------------------------------------------------------------- the budget

    /** The clock does not run backwards, and a pause lasts at least as long as asked. */
    ghost predicate Monotone() {
      && (forall j :: 0 <= j < |script| ==> script[j].start <= script[j].end)
      && (forall j :: 0 <= j < |script| - 1 ==> script[j].end + script[j].pause <= script[j + 1].start)
    }

    lemma {:induction false} PausesSumUp(n: nat)
      requires Monotone() && n <= |script|
      requires forall j :: 0 <= j < n - 1 ==> PausesAfter(j)
      ensures n > 0 ==> Sum(PausesOf(n)) <= script[n - 1].end + if PausesAfter(n - 1) then script[n - 1].pause else 0
      ensures n == 0 ==> PausesOf(n) == []
    {
      if n > 0 {
        PausesSumUp(n - 1);
        var init := PausesOf(n - 1);
        if PausesAfter(n - 1) {
          assert PausesOf(n)[..|PausesOf(n)| - 1] == init;
        } else {
          assert PausesOf(n) == init;
        }
      }
    }

    lemma {:induction false} StartsAscend(i: nat, j: nat)
      requires Monotone() && i <= j < |script|
      ensures script[i].start <= script[j].start
      decreases j - i
    {
      if i < j {
        StartsAscend(i + 1, j);
      }
    }

    /** Under a budget every attempt gets just the time that is left, which is some and never grows; every pause begins
        so that it ends before the budget does; and all pauses together last less than the budget. */
    lemma KeepsWithinBudget()
      requires Valid() && budget.Some? && Monotone()
      ensures var n := Made();
              && (forall j :: 0 <= j < n ==> CanStart(j))
              && (forall j :: 0 <= j < n ==>
                    Timeout(j).Some? && Timeout(j).value > 0 && script[j].start + Timeout(j).value == budget.value)
              && (forall i, j :: 0 <= i <= j < n ==> Timeout(j).value <= Timeout(i).value)
              && (forall j :: 0 <= j < n && PausesAfter(j) ==> script[j].end + script[j].pause < budget.value)
              && (if n == 0 then PausesOf(n) == [] else Sum(PausesOf(n)) < budget.value)
    {
      var n := Made();
      if n > 0 {
        Continues();
        forall j | 0 <= j < n ensures Timeout(j).Some? && Timeout(j).value > 0 {
          assert CanStart(j);
        }
        forall i, j | 0 <= i <= j < n ensures script[i].start <= script[j].start {
          StartsAscend(i, j);
        }
        PausesSumUp(n);
        PausesSumUp(n - 1);
        if !PausesAfter(n - 1) {
          assert PausesOf(n) == PausesOf(n - 1);
        }
      }
    }

    lemma {:induction false} PausesEveryTime(n: nat)
      requires n <= |script| && forall j :: 0 <= j < n ==> PausesAfter(j)
      ensures |PausesOf(n)| == n && forall k :: 0 <= k < n ==> PausesOf(n)[k] == script[k].pause
    {
      if n > 0 {
        PausesEveryTime(n - 1);
        assert PausesAfter(n - 1);
      }
    }

    /** With a deadline or without, a call pauses once between any two of its attempts, and once more after the last one
        exactly when that one is retried on a track with room and its pause fits. */
    lemma PausesOncePerGap()
      requires Made() > 0
      ensures var n := Made(); |PausesOf(n)| == n - 1 + if PausesAfter(n - 1) then 1 else 0
      ensures forall k :: 0 <= k < |PausesOf(Made())| ==> PausesOf(Made())[k] == script[k].pause
    {
      Continues();
      PausesEveryTime(Made() - 1);
    }

    /** The clock must not run backwards: a later attempt would get more time than an earlier one. */
    static lemma ClockThatRunsBackGrowsTimeouts(error: CallError)
      ensures var run := Run(Policy(2, 1), Some(10), (_: CallResult<R>) => Retry,
                             [Attempt(5, Err(error), 5, 0), Attempt(1, Err(error), 1, 0)]);
              run.Valid() && run.Made() == 2 && run.Timeout(0) == Some(5) && run.Timeout(1) == Some(9)
    {
      var run := Run(Policy(2, 1), Some(10), (_: CallResult<R>) => Retry,
                     [Attempt(5, Err(error), 5, 0), Attempt(1, Err(error), 1, 0)]);
      assert run.Count(Retry, 0) == 0;
      assert run.GoesOn(0);
      assert run.MadeFrom(1) == 2;
    }

    /** Without a deadline a call pauses between its attempts, and once more after the last one exactly when the last
        one the policy allows is retried on a track with room: a rate-limited one within its limit, or a standard one
        in a call that was rate-limited before. */
    lemma PausesBetweenAttempts()
      requires Valid() && budget.None?
      ensures var n := Made();
              |PausesOf(n)| ==
              if n == policy.maxAttempts
                 && ((Decision(n - 1) == Retry && Count(RetryRateLimit, n - 1) > 0)
                     || (Decision(n - 1) == RetryRateLimit && Count(RetryRateLimit, n) <= policy.rateLimitMaxAttempts))
              then n else n - 1
    {
      var n := Made();
      Continues();
      RetriedAreCounted(n - 1);
      PausesOncePerGap();
    }
  }

  /** What the call returns when its last attempt is `i - 1` and nothing else stops it: the failure of that attempt,
      or one of the loop's own. */
  function LastOr<R>(run: Run<R>, i: nat, code: StatusCode): CallResult<R>
    requires i <= |run.script|
  {
    if i > 0 && run.script[i - 1].result.Err? then run.script[i - 1].result else Err(Transport(code))
  }

  /** Every earlier attempt could start and was followed by a pause. */
  ghost predicate Reached<R>(run: Run<R>, i: nat) {
    i <= |run.script| && forall j :: 0 <= j < i ==> run.CanStart(j) && run.PausesAfter(j)
  }

  /** What the call comes to when the loop, having reached attempt `i`, ends there. */
  lemma EndsAt<R>(run: Run<R>, i: nat)
    requires Reached(run, i)
    ensures i < |run.script| && !run.CanStart(i) ==>
              run.Made() == i && run.Outcome() == LastOr(run, i, DeadlineExceeded)
    ensures i < |run.script| && run.CanStart(i) && !run.PausesAfter(i) ==>
              run.Made() == i + 1 && run.PausesOf(i + 1) == run.PausesOf(i)
              && run.Outcome() == if run.Retryable(i) then LastOr(run, i + 1, Internal) else run.script[i].result
    ensures i == |run.script| ==>
              run.Made() == i && run.Outcome() == LastOr(run, i, Internal)
  {
    forall j | 0 <= j < i ensures run.Retryable(j) {
      assert run.PausesAfter(j);
    }
    if i > 0 {
      forall k | 0 <= k < i - 1 ensures run.GoesOn(k) {
        assert run.PausesAfter(k) && run.CanStart(k + 1);
      }
      run.GoingOn(0, i - 1);
      assert run.PausesAfter(i - 1) && run.CanStart(0);
      if i < |run.script| && run.CanStart(i) {
        run.GoingOn(i - 1, i);
      }
    }
  }

  /** What going past attempt `i` adds. */
  lemma GoesFurther<R>(run: Run<R>, i: nat)
    requires i < |run.script| && Reached(run, i)
    ensures Reached(run, i + 1) <==> run.CanStart(i) && run.PausesAfter(i)
    ensures run.Count(Retry, i + 1) == run.Count(Retry, i) + if run.Decision(i) == Retry then 1 else 0
    ensures run.Count(RetryRateLimit, i + 1)
            == run.Count(RetryRateLimit, i) + if run.Decision(i) == RetryRateLimit then 1 else 0
    ensures run.PausesOf(i + 1) == run.PausesOf(i) + if run.PausesAfter(i) then [run.script[i].pause] else []
  {
  }

  lemma Begins<R>(run: Run<R>)
    ensures Reached(run, 0) && run.PausesOf(0) == [] && run.Count(Retry, 0) == run.Count(RetryRateLimit, 0) == 0
  {
  }

  function ErrorOf<R>(result: CallResult<R>): Option<CallError> {
    match result
    case Ok(_) => None
    case Err(error) => Some(error)
  }

  /** `run_with_retry`: the attempts are those of the script, in order, for as long as the loop goes on. */
  method RunWithRetry<R>(run: Run<R>) returns (result: CallResult<R>, timeouts: seq<Option<nat>>, pauses: seq<nat>)
    requires |run.script| == run.policy.maxAttempts
    ensures result == run.Outcome()
    ensures |timeouts| == run.Made()
    ensures forall j :: 0 <= j < |timeouts| ==> run.CanStart(j) && timeouts[j] == run.Timeout(j)
    ensures pauses == run.PausesOf(run.Made())
  {
    hide Run.Made, Run.MadeFrom, Run.Outcome, Run.OwnFailure, Run.Count, Run.PausesOf, Reached;
    Begins(run);
    var maxAttempts := run.policy.maxAttempts;
    var standardAttempt, rateLimitAttempt := 0, 0;
    var lastError: Option<CallError> := None;
    timeouts, pauses := [], [];
    for attemptIndex := 0 to maxAttempts
      invariant |timeouts| == attemptIndex && pauses == run.PausesOf(attemptIndex)
      invariant standardAttempt == run.Count(Retry, attemptIndex)
      invariant rateLimitAttempt == run.Count(RetryRateLimit, attemptIndex)
      invariant forall j :: 0 <= j < attemptIndex ==> run.CanStart(j) && timeouts[j] == run.Timeout(j)
      invariant Reached(run, attemptIndex)
      invariant lastError == if attemptIndex == 0 then None else ErrorOf(run.script[attemptIndex - 1].result)
    {
      var attempt := run.script[attemptIndex];
      EndsAt(run, attemptIndex);
      GoesFurther(run, attemptIndex);
      if run.budget.Some? && attempt.start >= run.budget.value {
        result := Err(if lastError.Some? then lastError.value else Transport(DeadlineExceeded));
        return;
      }
      timeouts := timeouts + [if run.budget.None? then None else Some(run.budget.value - attempt.start)];
      var decision := run.classify(attempt.result);
      if decision == Success || decision == Terminal {
        return attempt.result, timeouts, pauses;
      }
      lastError := ErrorOf(attempt.result);
      if decision == Retry {
        if standardAttempt + 1 >= maxAttempts {
          break;
        }
        standardAttempt := standardAttempt + 1;
      } else {
        if rateLimitAttempt + 1 > run.policy.rateLimitMaxAttempts {
          break;
        }
        rateLimitAttempt := rateLimitAttempt + 1;
      }
      if !BudgetAllowsSleep(run.budget, attempt.end, attempt.pause) {
        break;
      }
      pauses := pauses + [attempt.pause];
    }
    if Reached(run, maxAttempts) {
      EndsAt(run, maxAttempts);
    }
    result := Err(if lastError.Some? then lastError.value else Transport(Internal));
  }

  // ---------------------------------------------------------------- the typed unary call

  /** The encodings of a message type: `encode` may refuse, `decode` may not understand. */
  datatype Codec<!M> = Codec(encode: M -> Option<Bytes>, decode: Bytes -> Option<M>)

  ghost predicate RoundTrips<M>(codec: Codec<M>, message: M) {
    codec.encode(message).Some? ==> codec.decode(codec.encode(message).value) == Some(message)
  }

  /** The run as the loop sees it when every attempt after the first makes its message again from the encoded bytes:
      when that fails the attempt fails to decode and reaches no one. */
  function Remade<R>(run: Run<R>, remakes: bool): Run<R> {
    run.(script := seq(|run.script|, j requires 0 <= j < |run.script| =>
      if j > 0 && !remakes then run.script[j].(result := Err(Decode)) else run.script[j]))
  }

  /** A call that ends at its first attempt never makes its message again; where that is done in vain, and the
      classifier does not retry it, it ends the call at the second attempt. */
  lemma RemadeStops<R>(run: Run<R>)
    requires |run.script| == run.policy.maxAttempts > 1
    ensures var seen := Remade(run, false);
            && (run.Made() <= 1 ==> seen.Made() == run.Made() && seen.Outcome() == run.Outcome())
            && (run.Made() > 1 && run.classify(Err(Decode)) == Terminal ==> seen.Outcome() == Err(Decode))
  {
    var seen := Remade(run, false);
    assert seen.Count(Retry, 0) == run.Count(Retry, 0) && seen.Count(RetryRateLimit, 0) == run.Count(RetryRateLimit, 0);
    assert seen.Decision(0) == run.Decision(0) && seen.PausesAfter(0) == run.PausesAfter(0);
    assert seen.CanStart(0) == run.CanStart(0) && seen.CanStart(1) == run.CanStart(1);
    assert seen.GoesOn(0) == run.GoesOn(0);
    assert seen.MadeFrom(0) == if run.GoesOn(0) then seen.MadeFrom(1) else 1;
  }

  /** What reaches the wrapped client: a message, and the options it is sent with. */
  datatype Sent<+M, +O> = Sent(message: M, timeout: Option<nat>, metadata: O)

  /** The typed unary call. With one attempt allowed it is forwarded with its own options and nothing is encoded.
      `sent` is put together after the loop, one request for each attempt that had a message. */
  method CallUnary<M, R, O>(run: Run<R>, codec: Codec<M>, message: M, metadata: O)
    returns (result: CallResult<R>, sent: seq<Sent<M, O>>)
    requires |run.script| == run.policy.maxAttempts >= 1
    ensures run.policy.maxAttempts == 1 ==>
              result == run.script[0].result && sent == [Sent(message, run.budget, metadata)]
    ensures run.policy.maxAttempts > 1 ==>
              forall k :: 0 <= k < |sent| ==>
                k < |run.script| && run.CanStart(k) && sent[k].timeout == run.Timeout(k) && sent[k].metadata == metadata
    ensures run.policy.maxAttempts > 1 && codec.encode(message).None? ==> result == Err(Encode) && sent == []
    ensures run.policy.maxAttempts > 1 && codec.encode(message).Some? ==>
              var remakes := codec.decode(codec.encode(message).value).Some?;
              && result == Remade(run, remakes).Outcome()
              && (remakes || run.Made() <= 1 ==> result == run.Outcome() && |sent| == run.Made())
    ensures sent != [] ==> sent[0].message == message
    ensures RoundTrips(codec, message) ==> forall k :: 0 <= k < |sent| ==> sent[k].message == message
    ensures run.policy.maxAttempts > 1 && codec.encode(message).Some?
            && codec.decode(codec.encode(message).value).None? ==>
              |sent| <= 1 && (run.Made() > 1 && run.classify(Err(Decode)) == Terminal ==> result == Err(Decode))
  {
    if run.policy.maxAttempts <= 1 {
      return run.script[0].result, [Sent(message, run.budget, metadata)];
    }
    var encoded := codec.encode(message);
    if encoded.None? {
      return Err(Encode), [];
    }
    var remade := codec.decode(encoded.value);
    var seen := Remade(run, remade.Some?);
    var timeouts, pauses;
    result, timeouts, pauses := RunWithRetry(seen);
    sent := [];
    for j := 0 to |timeouts|
      invariant remade.Some? ==> |sent| == j
      invariant remade.None? ==> |sent| == if j == 0 then 0 else 1
      invariant forall k :: 0 <= k < |sent| ==>
                  sent[k] == Sent(if k == 0 then message else remade.value, timeouts[k], metadata)
    {
      if j == 0 {
        sent := [Sent(message, timeouts[j], metadata)];
      } else if remade.Some? {
        sent := sent + [Sent(remade.value, timeouts[j], metadata)];
      }
    }
    assert forall k :: 0 <= k < |timeouts| ==> seen.CanStart(k) == run.CanStart(k);
    if remade.Some? {
      assert seen.script == run.script;
    } else {
      RemadeStops(run);
    }
  }
}
