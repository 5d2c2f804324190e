/** Retry inside a circuit breaker, as `StdGrpcResilientFactory` composes them: one guarded call is one whole retry
    loop. */
module ResilientStack {
  import opened Common
  import opened CallContract
  import opened RetryClassifier
  import opened RetryLoop
  import Breaker

  /** A call on the stack: when it is admitted, its retry loop, and when its outcome is recorded. */
  datatype StackCall<!R> = StackCall(before: nat, run: Run<R>, after: nat)

  /** What the stack makes of one call: the breaker that follows, what the caller gets, and the attempts that reach the
      inner client. */
  datatype Served<+R> = Served(node: Breaker.Node, result: CallResult<R>, attempts: nat)

  function Serve<R>(config: Breaker.Config, node: Breaker.Node, call: StackCall<R>): Served<R> {
    var (next, result, called) := Breaker.Guarded(config, node, call.before, call.run.Outcome(), call.after);
    Served(next, result, if called then call.run.Made() else 0)
  }

  class ResilientClient {
    const breaker: Breaker.GrpcBreakerClient

    constructor (config: Breaker.Config)
      ensures fresh(breaker) && breaker.config == config && breaker.Current() == Breaker.FRESH
    {
      breaker := new Breaker.GrpcBreakerClient(config);
    }

    /** A unary call through the whole stack. */
    method Call<R>(call: StackCall<R>) returns (served: Served<R>)
      requires |call.run.script| == call.run.policy.maxAttempts
      modifies breaker
      ensures served == Serve(breaker.config, old(breaker.Current()), call) && breaker.Current() == served.node
      ensures if !breaker.config.enabled || Breaker.Admit(breaker.config, old(breaker.Current()), call.before).1
              then served.result == call.run.Outcome() && served.attempts == call.run.Made()
              else served.result == Err(Transport(Unavailable)) && served.attempts == 0
      ensures !breaker.config.enabled ==>
                served.result == call.run.Outcome() && breaker.Current() == old(breaker.Current())
    {
      if breaker.config.enabled {
        var admission := breaker.AdmitCall(call.before);
        if admission.Err? {
          return Served(breaker.Current(), Err(admission.error), 0);
        }
      }
      var result, timeouts, pauses := RunWithRetry(call.run);
      if breaker.config.enabled {
        breaker.RecordCall(Breaker.ClassifyResult(result), call.after);
      }
      served := Served(breaker.Current(), result, |timeouts|);
    }
  }

  /** The breaker after the first `n` calls, made one after the other on a fresh stack. */
  function NodeAfter<R>(config: Breaker.Config, calls: seq<StackCall<R>>, n: nat): Breaker.Node
    requires n <= |calls|
  {
    if n == 0 then Breaker.FRESH else Serve(config, NodeAfter(config, calls, n - 1), calls[n - 1]).node
  }

  function AttemptsOf<R>(config: Breaker.Config, calls: seq<StackCall<R>>, i: nat): nat
    requires i < |calls|
  {
    Serve(config, NodeAfter(config, calls, i), calls[i]).attempts
  }

  /** The attempts of each call that reach the inner client. */
  function Attempts<R>(config: Breaker.Config, calls: seq<StackCall<R>>): seq<nat> {
    seq(|calls|, i requires 0 <= i < |calls| => AttemptsOf(config, calls, i))
  }

  /** Every call follows the one policy, and would end in a failure the breaker counts. */
  ghost predicate AllFail<R>(policy: Policy, calls: seq<StackCall<R>>) {
    forall i :: 0 <= i < |calls| ==>
      calls[i].run.Valid() && calls[i].run.policy == policy
      && Breaker.ClassifyResult(calls[i].run.Outcome()) == Breaker.Failure
  }

  /** The calls after the one that opens the circuit come before the cool-down is over. */
  ghost predicate WithinCoolDown<R>(config: Breaker.Config, calls: seq<StackCall<R>>) {
    config.failureThreshold >= 1 &&
    forall i :: config.failureThreshold <= i < |calls| ==>
      calls[i].before < calls[config.failureThreshold - 1].after + config.coolDown
  }

  /** However often it was retried, one failed call counts once; the failure that reaches the threshold opens the
      circuit, and until the cool-down is over no call after it leaves the stack. */
  lemma {:induction false} OneCallCountsOnce<R>(config: Breaker.Config, policy: Policy, calls: seq<StackCall<R>>,
                                                n: nat)
    requires config.Valid() && config.enabled && AllFail(policy, calls) && WithinCoolDown(config, calls) && n <= |calls|
    ensures NodeAfter(config, calls, n) ==
            if n < config.failureThreshold then Breaker.Node(Breaker.Closed, n, 0)
            else Breaker.Node(Breaker.Open(calls[config.failureThreshold - 1].after), 0, 0)
  {
    hide Run.Outcome, Run.Made, Run.Valid, Breaker.ClassifyResult;
    if n > 0 {
      OneCallCountsOnce(config, policy, calls, n - 1);
    }
  }

  /** A call the breaker counts as failed made at least one attempt, and no more than the policy allows. */
  lemma FailedCallsMadeAttempts<R>(run: Run<R>)
    requires run.Valid() && Breaker.ClassifyResult(run.Outcome()) == Breaker.Failure
    ensures 1 <= run.Made() <= run.policy.maxAttempts
  {
  }

  /** How the two layers see one result. A success is neither retried nor counted. The breaker counts what is retried
      as a failure of the peer, unless the peer said it was exhausted, and beyond that only internal failures and
      replies that cannot be decoded, which are not retried. */
  lemma CountedIfRetriedOrInternal<R>(result: CallResult<R>)
    ensures var exhausted := result.Err? && result.error.Status? && result.error.code == ResourceExhausted;
            var internal := result.Err? && match result.error
                                           case Status(code, _, _) => code == Internal
                                           case Transport(code) => code == Internal
                                           case Decode => true
                                           case Encode => false;
            && (Breaker.ClassifyResult(result) == Breaker.Failure
                <==> (Classify(result) == Retry && !exhausted) || internal)
            && (Classify(result) == RetryRateLimit ==> exhausted)
            && (internal ==> Classify(result) == Terminal)
            && (result.Ok? ==>
                  Classify(result) == RetryDecision.Success && Breaker.ClassifyResult(result) == Breaker.Success)
  {
  }

  function Min(a: nat, b: nat): nat { if a < b then a else b }

  /** What becomes of one call to a peer that only fails. */
  lemma {:induction false} FailingCall<R>(config: Breaker.Config, policy: Policy, calls: seq<StackCall<R>>, i: nat)
    requires config.Valid() && config.enabled && AllFail(policy, calls) && WithinCoolDown(config, calls) && i < |calls|
    ensures i < config.failureThreshold ==>
              AttemptsOf(config, calls, i) == calls[i].run.Made()
              && 1 <= AttemptsOf(config, calls, i) <= policy.maxAttempts
    ensures i >= config.failureThreshold ==>
              AttemptsOf(config, calls, i) == 0
              && Serve(config, NodeAfter(config, calls, i), calls[i]).result == Err(Breaker.REFUSED)
  {
    OneCallCountsOnce(config, policy, calls, i);
    FailedCallsMadeAttempts(calls[i].run);
  }

  lemma {:induction false} SumOfBounded(attempts: seq<nat>, limit: nat, most: nat)
    requires forall i :: 0 <= i < |attempts| ==> if i < limit then 1 <= attempts[i] <= most else attempts[i] == 0
    ensures Min(|attempts|, limit) <= Sum(attempts) <= Min(|attempts|, limit) * most
  {
    if attempts != [] {
      SumOfBounded(attempts[..|attempts| - 1], limit, most);
    }
  }

  /** Against a peer that only fails, a fresh stack lets through at least one attempt for each call below the threshold,
      at most as many as the policy allows for each, and none for any call after those: the attempts of any number of
      calls stay within threshold times attempts. */
  lemma FailingPeerIsShielded<R>(config: Breaker.Config, policy: Policy, calls: seq<StackCall<R>>)
    requires config.Valid() && config.enabled && AllFail(policy, calls) && WithinCoolDown(config, calls)
    ensures var sent := Min(|calls|, config.failureThreshold);
            sent <= Sum(Attempts(config, calls)) <= sent * policy.maxAttempts
    ensures forall i :: config.failureThreshold <= i < |calls| ==> Attempts(config, calls)[i] == 0
  {
    forall i | 0 <= i < |calls|
      ensures var made := Attempts(config, calls)[i];
              if i < config.failureThreshold then 1 <= made <= policy.maxAttempts else made == 0
    {
      FailingCall(config, policy, calls, i);
    }
    SumOfBounded(Attempts(config, calls), config.failureThreshold, policy.maxAttempts);
  }
}
