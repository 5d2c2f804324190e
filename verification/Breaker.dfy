/**
 The circuit breaker around a client.

 `Admit` and `RecordOutcome` are the transitions of the documented three-state machine, whose own crate is not part of
 this model: what its documentation leaves open is settled here as the README says. The guard reads the node under one
 lock hold and writes it back under another; `System` interleaves those lock holds in every order.
 */
module Breaker {
  import opened Common
  import opened CallContract

  datatype Config = Config(enabled: bool, failureThreshold: nat, coolDown: nat, halfOpenProbeCount: nat) {
    /** What `GrpcBreakerConfig` accepts. */
    predicate Valid() { failureThreshold >= 1 && halfOpenProbeCount >= 1 }
  }

  datatype State = Closed | Open(since: nat) | HalfOpen

  datatype Node = Node(state: State, failures: nat, successes: nat)

  const FRESH: Node := Node(Closed, 0, 0)

  datatype CallOutcome = Success | Failure

  /** The states of the documented machine: counts stay below the limits at which they would have moved it. */
  predicate Documented(config: Config, node: Node) {
    match node.state
    case Closed => node.failures < config.failureThreshold && node.successes == 0
    case Open(_) => node.failures == 0 && node.successes == 0
    case HalfOpen => node.failures == 0 && node.successes < config.halfOpenProbeCount
  }

  /** Whether a call may go out, and the node that follows. A half-open node does not say how many probes are still
      out, so it cannot limit them. */
  function Admit(config: Config, node: Node, now: nat): (Node, bool) {
    match node.state
    case Closed => (node, true)
    case HalfOpen => (node, true)
    case Open(since) => if now >= since + config.coolDown then (Node(HalfOpen, 0, 0), true) else (node, false)
  }

  /** The node that follows a call that went out. */
  function RecordOutcome(config: Config, node: Node, outcome: CallOutcome, now: nat): Node {
    match (node.state, outcome)
    case (Closed, Success) => FRESH
    case (Closed, Failure) =>
      if node.failures + 1 >= config.failureThreshold then Node(Open(now), 0, 0)
      else node.(failures := node.failures + 1)
    case (HalfOpen, Success) =>
      if node.successes + 1 >= config.halfOpenProbeCount then FRESH else node.(successes := node.successes + 1)
    case (HalfOpen, Failure) => Node(Open(now), 0, 0)
    case (Open(_), _) => node
  }

  /** Which results count against the peer. */
  function ClassifyResult<R>(result: CallResult<R>): CallOutcome {
    match result
    case Ok(_) => Success
    case Err(Transport(code)) => if code in {Unavailable, Unknown, Internal} then Failure else Success
    case Err(Status(code, _, _)) => if code in {Unavailable, Internal} then Failure else Success
    case Err(Decode) => Failure
    case Err(Encode) => Success
  }

  const REFUSED: CallError := Transport(Unavailable)

  /** A guarded call that nothing interrupts: the node and the result that follow, and whether the call went out.
      `before` and `after` are the times of the two transitions. */
  function Guarded<R>(config: Config, node: Node, before: nat, result: CallResult<R>, after: nat)
    : (Node, CallResult<R>, bool)
  {
    if !config.enabled then (node, result, true) else
    var (admitted, proceed) := Admit(config, node, before);
    if proceed then (RecordOutcome(config, admitted, ClassifyResult(result), after), result, true)
    else (admitted, Err(REFUSED), false)
  }

  class GrpcBreakerClient {
    const config: Config
    var state: State
    var consecutiveFailures: nat
    var consecutiveSuccesses: nat

    function Current(): Node
      reads this
    {
      Node(state, consecutiveFailures, consecutiveSuccesses)
    }

    constructor (config: Config)
      ensures this.config == config && Current() == FRESH
    {
      this.config := config;
      state, consecutiveFailures, consecutiveSuccesses := Closed, 0, 0;
    }

    method WriteBack(node: Node)
      modifies this
      ensures Current() == node
    {
      state := node.state;
      consecutiveFailures := node.failures;
      consecutiveSuccesses := node.successes;
    }

    /** Asks the machine whether a call may go out, and moves it as it says. */
    method AdmitCall(now: nat) returns (admission: Result<(), CallError>)
      modifies this
      ensures (Current(), admission.Ok?) == Admit(config, old(Current()), now)
      ensures admission.Err? ==> admission.error == Transport(Unavailable)
    {
      var snapshot := Current();
      var (admitted, proceed) := Admit(config, snapshot, now);
      WriteBack(admitted);
      admission := if proceed then Ok(()) else Err(REFUSED);
    }

    /** Tells the machine how a call that went out ended. */
    method RecordCall(outcome: CallOutcome, now: nat)
      modifies this
      ensures Current() == RecordOutcome(config, old(Current()), outcome, now)
    {
      var snapshot := Current();
      WriteBack(RecordOutcome(config, snapshot, outcome, now));
    }

    /** The guard of the typed calls: a disabled breaker is not consulted at all. */
    method Guard<R>(before: nat, call: CallResult<R>, after: nat) returns (result: CallResult<R>, called: bool)
      modifies this
      ensures (Current(), result, called) == Guarded(config, old(Current()), before, call, after)
      ensures called <==> !config.enabled || Admit(config, old(Current()), before).1
      ensures result == if called then call else Err(Transport(Unavailable))
      ensures !config.enabled ==> called && Current() == old(Current())
    {
      if !config.enabled {
        return call, true;
      }
      var admission := AdmitCall(before);
      if admission.Err? {
        return Err(admission.error), false;
      }
      result, called := call, true;
      RecordCall(ClassifyResult(result), after);
    }

    /** The raw calls repeat the guard around their own request, and do the same. */
    method GuardRaw<R>(before: nat, call: CallResult<R>, after: nat) returns (result: CallResult<R>, called: bool)
      modifies this
      ensures (Current(), result, called) == Guarded(config, old(Current()), before, call, after)
      ensures called <==> !config.enabled || Admit(config, old(Current()), before).1
      ensures result == if called then call else Err(Transport(Unavailable))
      ensures !config.enabled ==> called && Current() == old(Current())
    {
      if config.enabled {
        var admission := AdmitCall(before);
        if admission.Err? {
          return Err(admission.error), false;
        }
      }
      result, called := call, true;
      if config.enabled {
        RecordCall(ClassifyResult(result), after);
      }
    }
  }

  // ---------------------------------------------------------------- the machine over a sequence of outcomes

  /** How many failures the outcomes end with. */
  function Trailing(outcomes: seq<CallOutcome>): nat {
    if outcomes == [] || outcomes[|outcomes| - 1] == Success then 0 else 1 + Trailing(outcomes[..|outcomes| - 1])
  }

  lemma {:induction false} TrailingIs(outcomes: seq<CallOutcome>)
    ensures var n := Trailing(outcomes);
            && n <= |outcomes| && (forall i :: |outcomes| - n <= i < |outcomes| ==> outcomes[i] == Failure)
            && (n < |outcomes| ==> outcomes[|outcomes| - n - 1] == Success)
  {
    if outcomes != [] && outcomes[|outcomes| - 1] == Failure {
      TrailingIs(outcomes[..|outcomes| - 1]);
    }
  }

  /** The node after recording the outcomes one after the other; `times[i]` is when the i-th is recorded. */
  function RecordAll(config: Config, node: Node, outcomes: seq<CallOutcome>, times: seq<nat>): Node
    requires |times| == |outcomes|
  {
    if outcomes == [] then node else
    var k := |outcomes| - 1;
    RecordOutcome(config, RecordAll(config, node, outcomes[..k], times[..k]), outcomes[k], times[k])
  }

  /** A closed breaker counts the failures since the last success, and opens at the first moment they reach the
      threshold: it is still closed exactly when no run of that many failures has occurred. */
  lemma {:induction false} ClosedCountsTrailingFailures(config: Config, outcomes: seq<CallOutcome>, times: seq<nat>)
    requires config.Valid() && |times| == |outcomes|
    ensures RecordAll(config, FRESH, outcomes, times).state == Closed <==>
            forall k :: 0 <= k <= |outcomes| ==> Trailing(outcomes[..k]) < config.failureThreshold
    ensures RecordAll(config, FRESH, outcomes, times).state == Closed ==>
              RecordAll(config, FRESH, outcomes, times) == Node(Closed, Trailing(outcomes), 0)
    ensures RecordAll(config, FRESH, outcomes, times).state != HalfOpen
  {
    assert outcomes[..|outcomes|] == outcomes;
    if outcomes != [] {
      var n := |outcomes| - 1;
      ClosedCountsTrailingFailures(config, outcomes[..n], times[..n]);
      assert forall k :: 0 <= k <= n ==> outcomes[..n][..k] == outcomes[..k];
      var node := RecordAll(config, FRESH, outcomes[..n], times[..n]);
      if node.state == Closed {
        assert outcomes[..n][..n] == outcomes[..n];
        assert forall k :: 0 <= k <= n ==> Trailing(outcomes[..k]) == Trailing(outcomes[..n][..k]);
      } else {
        var k :| 0 <= k <= n && Trailing(outcomes[..n][..k]) >= config.failureThreshold;
        assert outcomes[..k] == outcomes[..n][..k];
      }
    }
  }

  // ---------------------------------------------------------------- an open circuit over a sequence of calls

  /** A call through the guard: when it is admitted, what it would return, and when its outcome is recorded. */
  datatype TimedCall<+R> = TimedCall(before: nat, result: CallResult<R>, after: nat)

  /** The node after the calls, made one after the other. */
  function GuardedAll<R>(config: Config, node: Node, calls: seq<TimedCall<R>>): Node {
    if calls == [] then node else
    var init, last := calls[..|calls| - 1], calls[|calls| - 1];
    Guarded(config, GuardedAll(config, node, init), last.before, last.result, last.after).0
  }

  /** The call after those goes out. */
  predicate GoesOut<R>(config: Config, node: Node, calls: seq<TimedCall<R>>, call: TimedCall<R>) {
    Guarded(config, GuardedAll(config, node, calls), call.before, call.result, call.after).2
  }

  /** Until the cool-down is over an open circuit refuses every call, however many there are, and does not move; the
      first call after it goes out. */
  lemma {:induction false} OpenUntilCooledDown<R>(config: Config, since: nat, early: seq<TimedCall<R>>,
                                                  call: TimedCall<R>)
    requires config.enabled && forall c :: c in early ==> c.before < since + config.coolDown
    ensures GuardedAll(config, Node(Open(since), 0, 0), early) == Node(Open(since), 0, 0)
    ensures GoesOut(config, Node(Open(since), 0, 0), early, call) <==> call.before >= since + config.coolDown
  {
    if early != [] {
      OpenUntilCooledDown(config, since, early[..|early| - 1], call);
    }
  }

  /** From the first call after the cool-down on, the probes all go out. As long as they succeed they are counted, and
      the last of `half_open_probe_count` closes the circuit with nothing counted; one that fails opens it again from
      then. */
  lemma {:induction false} ProbesDecide<R>(config: Config, since: nat, probes: seq<TimedCall<R>>)
    requires config.Valid() && config.enabled && 1 <= |probes| <= config.halfOpenProbeCount
    requires probes[0].before >= since + config.coolDown
    requires forall i :: 0 <= i < |probes| - 1 ==> ClassifyResult(probes[i].result) == Success
    ensures var last := probes[|probes| - 1];
            GuardedAll(config, Node(Open(since), 0, 0), probes) ==
            if ClassifyResult(last.result) == Failure then Node(Open(last.after), 0, 0)
            else if |probes| < config.halfOpenProbeCount then Node(HalfOpen, 0, |probes|)
            else FRESH
    ensures GoesOut(config, Node(Open(since), 0, 0), probes[..|probes| - 1], probes[|probes| - 1])
  {
    var init := probes[..|probes| - 1];
    if init != [] {
      ProbesDecide(config, since, init);
    }
  }

  // ---------------------------------------------------------------- interleaved calls

  /** Where a call stands. `snapshot` is the node it read and has not yet written back. */
  datatype Task =
    | Waiting
    | Admitting(snapshot: Node)
    | Refused
    | Calling
    | Returned(outcome: CallOutcome)
    | Recording(outcome: CallOutcome, snapshot: Node)
    | Finished

  datatype Event = Admission(now: nat) | Recorded(outcome: CallOutcome, now: nat)

  /** The shared node and every call; how often each call reached the wrapped client and was written back as recorded;
      the write-backs in order; and whether one of them overwrote a node other than the one it had read. */
  datatype System = System(node: Node, tasks: seq<Task>, calls: seq<nat>, records: seq<nat>,
                           history: seq<Event>, stale: bool) {
    predicate WellFormed() { |tasks| == |calls| == |records| }
  }

  /** The scheduler lets `task` do its next lock hold, or its wrapped call end with `outcome`. */
  datatype Choice = Choice(task: nat, now: nat, outcome: CallOutcome)

  function Start(n: nat): System {
    System(FRESH, seq(n, _ => Waiting), seq(n, _ => 0), seq(n, _ => 0), [], false)
  }

  function Step(config: Config, s: System, choice: Choice): System
    requires s.WellFormed()
    ensures Step(config, s, choice).WellFormed() && |Step(config, s, choice).tasks| == |s.tasks|
  {
    var i := choice.task;
    if i >= |s.tasks| then s else
    match s.tasks[i]
    case Waiting =>
      if config.enabled then s.(tasks := s.tasks[i := Admitting(s.node)])
      else s.(tasks := s.tasks[i := Calling], calls := s.calls[i := s.calls[i] + 1])
    case Admitting(snapshot) =>
      var (node, proceed) := Admit(config, snapshot, choice.now);
      s.(node := node,
         tasks := s.tasks[i := if proceed then Calling else Refused],
         calls := if proceed then s.calls[i := s.calls[i] + 1] else s.calls,
         history := s.history + [Admission(choice.now)],
         stale := s.stale || snapshot != s.node)
    case Calling =>
      s.(tasks := s.tasks[i := if config.enabled then Returned(choice.outcome) else Finished])
    case Returned(outcome) =>
      s.(tasks := s.tasks[i := Recording(outcome, s.node)])
    case Recording(outcome, snapshot) =>
      s.(node := RecordOutcome(config, snapshot, outcome, choice.now),
         tasks := s.tasks[i := Finished],
         records := s.records[i := s.records[i] + 1],
         history := s.history + [Recorded(outcome, choice.now)],
         stale := s.stale || snapshot != s.node)
    case _ => s
  }

  /** The system after the scheduler's choices. */
  function Execute(config: Config, n: nat, choices: seq<Choice>): (s: System)
    ensures s.WellFormed() && |s.tasks| == n
  {
    if choices == [] then Start(n)
    else Step(config, Execute(config, n, choices[..|choices| - 1]), choices[|choices| - 1])
  }

  predicate HoldsSnapshot(task: Task) { task.Admitting? || task.Recording? }

  ghost predicate TaskInv(config: Config, task: Task, calls: nat, records: nat) {
    && (HoldsSnapshot(task) ==> config.enabled && Documented(config, task.snapshot))
    && (task.Refused? || task.Returned? ==> config.enabled)
    && calls == (if task.Waiting? || task.Admitting? || task.Refused? then 0 else 1)
    && records == (if task.Finished? && config.enabled then 1 else 0)
  }

  ghost predicate Inv(config: Config, s: System) {
    && s.WellFormed() && Documented(config, s.node)
    && (forall i :: 0 <= i < |s.tasks| ==> TaskInv(config, s.tasks[i], s.calls[i], s.records[i]))
  }

  lemma StepKeepsInv(config: Config, s: System, choice: Choice)
    requires config.Valid() && Inv(config, s)
    ensures Inv(config, Step(config, s, choice))
  {
    var i, t := choice.task, Step(config, s, choice);
    if i < |s.tasks| {
      assert TaskInv(config, s.tasks[i], s.calls[i], s.records[i]);
      assert TaskInv(config, t.tasks[i], t.calls[i], t.records[i]);
    }
  }

  /** In every interleaving: the node and every snapshot held are states of the documented machine; a refused call
      never reached the wrapped client; a finished one reached it once and, unless the breaker is disabled, was recorded
      once. */
  lemma {:induction false} EveryInterleavingIsSafe(config: Config, n: nat, choices: seq<Choice>)
    requires config.Valid()
    ensures Inv(config, Execute(config, n, choices))
  {
    if choices != [] {
      EveryInterleavingIsSafe(config, n, choices[..|choices| - 1]);
      StepKeepsInv(config, Execute(config, n, choices[..|choices| - 1]), choices[|choices| - 1]);
    }
  }

  /** The node after the write-backs, each done as one atomic transition. */
  function Replay(config: Config, history: seq<Event>): Node {
    if history == [] then FRESH else
    var node := Replay(config, history[..|history| - 1]);
    match history[|history| - 1]
    case Admission(now) => Admit(config, node, now).0
    case Recorded(outcome, now) => RecordOutcome(config, node, outcome, now)
  }

  /** As long as no write-back overwrites a node other than the one it read, admitting and recording are atomic. It is
      not needed for that: a stale success, recorded from a fresh node, writes what the atomic one would. */
  lemma {:induction false} FreshWritesAreAtomic(config: Config, n: nat, choices: seq<Choice>)
    requires !Execute(config, n, choices).stale
    ensures Execute(config, n, choices).node == Replay(config, Execute(config, n, choices).history)
  {
    if choices != [] {
      var s := Execute(config, n, choices[..|choices| - 1]);
      var t := Step(config, s, choices[|choices| - 1]);
      FreshWritesAreAtomic(config, n, choices[..|choices| - 1]);
      if t.history != s.history {
        assert t.history[..|t.history| - 1] == s.history;
      }
    }
  }

  /** At most one call is between its read and its write-back. */
  ghost predicate Alone(s: System) {
    forall i, j :: 0 <= i < j < |s.tasks| ==> !(HoldsSnapshot(s.tasks[i]) && HoldsSnapshot(s.tasks[j]))
  }

  ghost predicate NeverOverlaps(config: Config, n: nat, choices: seq<Choice>) {
    forall k :: 0 <= k <= |choices| ==> Alone(Execute(config, n, choices[..k]))
  }

  /** Calls that never hold a snapshot at the same time never write back a stale one, so a schedule of such calls is a
      schedule of atomic transitions. */
  lemma {:induction false} NoOverlapIsAtomic(config: Config, n: nat, choices: seq<Choice>)
    requires NeverOverlaps(config, n, choices)
    ensures var s := Execute(config, n, choices);
            && !s.stale
            && (forall i :: 0 <= i < n && HoldsSnapshot(s.tasks[i]) ==> s.tasks[i].snapshot == s.node)
            && s.node == Replay(config, s.history)
  {
    if choices != [] {
      var init := choices[..|choices| - 1];
      forall k | 0 <= k <= |init| ensures Alone(Execute(config, n, init[..k])) {
        assert init[..k] == choices[..k];
      }
      NoOverlapIsAtomic(config, n, init);
      assert choices[..|choices|] == choices && choices[..|init|] == init;
      assert Alone(Execute(config, n, init)) && Alone(Execute(config, n, choices));
    }
    FreshWritesAreAtomic(config, n, choices);
  }

  lemma SumUpdated(s: seq<nat>, i: nat)
    requires i < |s|
    ensures Sum(s[i := s[i] + 1]) == Sum(s) + 1
  {
    var t := s[i := s[i] + 1];
    if i == |s| - 1 {
      assert t[..|s| - 1] == s[..|s| - 1];
    } else {
      SumUpdated(s[..|s| - 1], i);
      assert t[..|s| - 1] == s[..|s| - 1][i := s[i] + 1];
    }
  }

  /** How many calls the write-backs, each done as one atomic transition, let out. */
  function LetOut(config: Config, history: seq<Event>): nat {
    if history == [] then 0 else
    var init, last := history[..|history| - 1], history[|history| - 1];
    LetOut(config, init) + if last.Admission? && Admit(config, Replay(config, init), last.now).1 then 1 else 0
  }

  lemma StaleStays(config: Config, s: System, choice: Choice)
    requires s.WellFormed()
    ensures s.stale ==> Step(config, s, choice).stale
  {
  }

  /** How many outcomes were recorded. */
  function RecordedIn(history: seq<Event>): nat {
    if history == [] then 0
    else RecordedIn(history[..|history| - 1]) + if history[|history| - 1].Recorded? then 1 else 0
  }

  lemma {:induction false} SumOfZeros(n: nat)
    ensures Sum(seq(n, _ => 0)) == 0
  {
    if n > 0 {
      SumOfZeros(n - 1);
      assert seq(n, _ => 0)[..n - 1] == seq(n - 1, _ => 0);
    }
  }

  /** What one choice adds to the tallies. */
  lemma StepTallies(config: Config, s: System, choice: Choice)
    requires config.enabled && s.WellFormed() && !Step(config, s, choice).stale
    ensures var t := Step(config, s, choice);
            if t.history == s.history then Sum(t.calls) == Sum(s.calls) && Sum(t.records) == Sum(s.records)
            else
              && |t.history| == |s.history| + 1 && t.history[..|s.history|] == s.history
              && var last := t.history[|s.history|];
                 var letOut := last.Admission? && Admit(config, s.node, last.now).1;
                 && Sum(t.calls) == Sum(s.calls) + (if letOut then 1 else 0)
                 && Sum(t.records) == Sum(s.records) + if last.Recorded? then 1 else 0
  {
    var i := choice.task;
    if i < |s.tasks| {
      SumUpdated(s.calls, i);
      SumUpdated(s.records, i);
      hide Sum, Admit, RecordOutcome;
    }
  }

  /** As long as no write-back is stale, the calls that reach the wrapped client are just those the atomic machine
      lets out. */
  lemma {:induction false} CallsAreThoseLetOut(config: Config, n: nat, choices: seq<Choice>)
    requires config.enabled && !Execute(config, n, choices).stale
    ensures var s := Execute(config, n, choices);
            Sum(s.calls) == LetOut(config, s.history) && Sum(s.records) == RecordedIn(s.history)
  {
    if choices == [] {
      SumOfZeros(n);
    } else {
      var init, choice := choices[..|choices| - 1], choices[|choices| - 1];
      var s := Execute(config, n, init);
      assert Execute(config, n, choices) == Step(config, s, choice);
      StaleStays(config, s, choice);
      CallsAreThoseLetOut(config, n, init);
      FreshWritesAreAtomic(config, n, init);
      hide Execute, Replay, Sum, Step, Admit;
      StepTallies(config, s, choice);
    }
  }

  /** A disabled breaker is not consulted: whatever the calls do, nothing is read, written or recorded, and none is
      refused. A call goes out at its first choice and is finished at its second. */
  lemma {:induction false} DisabledIsNotConsulted(config: Config, n: nat, choices: seq<Choice>)
    requires !config.enabled
    ensures var s := Execute(config, n, choices);
            && s.node == FRESH && s.history == [] && !s.stale
            && forall i :: 0 <= i < n ==> s.tasks[i] in {Waiting, Calling, Finished}
    ensures forall first, second :: n == 1 && choices == [first, second] && first.task == second.task == 0 ==>
              Execute(config, n, choices).tasks == [Finished] && Execute(config, n, choices).calls == [1]
  {
    if choices != [] {
      DisabledIsNotConsulted(config, n, choices[..|choices| - 1]);
    }
    if |choices| == 2 && n == 1 {
      var one := choices[..1];
      assert one[..0] == [] && one[0] == choices[0];
      assert Start(1) == System(FRESH, [Waiting], [0], [0], [], false);
      assert choices[0].task == 0 ==> Execute(config, 1, one).tasks == [Calling];
    }
  }

  /** Two calls that are admitted one after the other and both fail. */
  function BothFail(): seq<Choice> {
    [Choice(0, 0, Failure), Choice(0, 0, Failure), Choice(1, 0, Failure), Choice(1, 0, Failure),
     Choice(0, 0, Failure), Choice(1, 0, Failure)]
  }

  /** And that are then recorded each from the node the other had read. */
  function OverlappingChoices(): seq<Choice> {
    BothFail() + [Choice(0, 0, Failure), Choice(1, 0, Failure), Choice(0, 0, Failure), Choice(1, 0, Failure)]
  }

  /** A system of two calls. */
  function Two(node: Node, tasks: (Task, Task), calls: (nat, nat), records: (nat, nat),
               history: seq<Event>, stale: bool): System
  {
    System(node, [tasks.0, tasks.1], [calls.0, calls.1], [records.0, records.1], history, stale)
  }

  const TINY: Config := Config(true, 2, 30, 1)

  lemma OneMoreChoice(config: Config, n: nat, choices: seq<Choice>, choice: Choice)
    ensures Execute(config, n, choices + [choice]) == Step(config, Execute(config, n, choices), choice)
  {
  }

  lemma NoChoices(config: Config)
    ensures Execute(config, 2, []) == Two(FRESH, (Waiting, Waiting), (0, 0), (0, 0), [], false)
  {
  }

  lemma BothFailRun()
    ensures Execute(TINY, 2, BothFail())
            == Two(FRESH, (Returned(Failure), Returned(Failure)), (1, 1), (0, 0), [Admission(0), Admission(0)], false)
  {
    hide Execute;
    var a, b := Choice(0, 0, Failure), Choice(1, 0, Failure);
    var c, h: seq<Event> := [], [Admission(0)];
    NoChoices(TINY);
    OneMoreChoice(TINY, 2, c, a);
    assert Execute(TINY, 2, c + [a]) == Two(FRESH, (Admitting(FRESH), Waiting), (0, 0), (0, 0), [], false);
    OneMoreChoice(TINY, 2, c + [a], a);
    assert Execute(TINY, 2, c + [a] + [a]) == Two(FRESH, (Calling, Waiting), (1, 0), (0, 0), h, false);
    OneMoreChoice(TINY, 2, c + [a] + [a], b);
    assert Execute(TINY, 2, c + [a] + [a] + [b]) == Two(FRESH, (Calling, Admitting(FRESH)), (1, 0), (0, 0), h, false);
    OneMoreChoice(TINY, 2, c + [a] + [a] + [b], b);
    var d := c + [a] + [a] + [b] + [b];
    assert Execute(TINY, 2, d) == Two(FRESH, (Calling, Calling), (1, 1), (0, 0), h + h, false);
    OneMoreChoice(TINY, 2, d, a);
    assert Execute(TINY, 2, d + [a]) == Two(FRESH, (Returned(Failure), Calling), (1, 1), (0, 0), h + h, false);
    OneMoreChoice(TINY, 2, d + [a], b);
    assert d + [a] + [b] == BothFail();
  }

  lemma OverlappingRun()
    ensures Execute(TINY, 2, OverlappingChoices()) ==
            Two(Node(Closed, 1, 0), (Finished, Finished), (1, 1), (1, 1),
                [Admission(0), Admission(0), Recorded(Failure, 0), Recorded(Failure, 0)], true)
  {
    hide Execute;
    var a, b := Choice(0, 0, Failure), Choice(1, 0, Failure);
    var one, h := Node(Closed, 1, 0), [Admission(0), Admission(0)];
    var c := BothFail();
    BothFailRun();
    OneMoreChoice(TINY, 2, c, a);
    assert Execute(TINY, 2, c + [a])
           == Two(FRESH, (Recording(Failure, FRESH), Returned(Failure)), (1, 1), (0, 0), h, false);
    OneMoreChoice(TINY, 2, c + [a], b);
    assert Execute(TINY, 2, c + [a] + [b])
           == Two(FRESH, (Recording(Failure, FRESH), Recording(Failure, FRESH)), (1, 1), (0, 0), h, false);
    OneMoreChoice(TINY, 2, c + [a] + [b], a);
    assert Execute(TINY, 2, c + [a] + [b] + [a])
           == Two(one, (Finished, Recording(Failure, FRESH)), (1, 1), (1, 0), h + [Recorded(Failure, 0)], false);
    OneMoreChoice(TINY, 2, c + [a] + [b] + [a], b);
    assert c + [a] + [b] + [a] + [b] == OverlappingChoices();
  }

  /** The hypothesis is needed: of two failures recorded from the same snapshot one is lost, and a breaker that should
      have opened stays closed. */
  lemma OverlapLosesAFailure()
    ensures var s := Execute(TINY, 2, OverlappingChoices());
            s.records == [1, 1] && s.node == Node(Closed, 1, 0) && Replay(TINY, s.history).state.Open?
  {
    OverlappingRun();
    var a, r := Admission(0), Recorded(Failure, 0);
    assert [a, a, r, r][..3] == [a, a, r];
    assert [a, a, r][..2] == [a, a];
    assert [a, a][..1] == [a];
    assert [a][..0] == [];
    assert Replay(TINY, [a]) == FRESH;
    assert Replay(TINY, [a, a]) == FRESH;
    assert Replay(TINY, [a, a, r]) == Node(Closed, 1, 0);
  }

  /** One call is admitted and fails; another reads the closed node before that is recorded, and writes it back
      after. */
  function StaleAdmissionChoices(): seq<Choice> {
    [Choice(0, 0, Failure), Choice(0, 0, Failure), Choice(0, 0, Failure), Choice(0, 0, Failure),
     Choice(1, 0, Failure), Choice(0, 0, Failure), Choice(1, 0, Failure)]
  }

  const HASTY: Config := Config(true, 1, 30, 1)

  lemma OneFailsRun()
    ensures Execute(HASTY, 2, StaleAdmissionChoices()[..4])
            == Two(FRESH, (Recording(Failure, FRESH), Waiting), (1, 0), (0, 0), [Admission(0)], false)
  {
    var a := Choice(0, 0, Failure);
    var c, h: seq<Event> := [], [Admission(0)];
    hide Execute;
    NoChoices(HASTY);
    OneMoreChoice(HASTY, 2, c, a);
    assert Execute(HASTY, 2, c + [a]) == Two(FRESH, (Admitting(FRESH), Waiting), (0, 0), (0, 0), [], false);
    OneMoreChoice(HASTY, 2, c + [a], a);
    assert Execute(HASTY, 2, c + [a] + [a]) == Two(FRESH, (Calling, Waiting), (1, 0), (0, 0), h, false);
    OneMoreChoice(HASTY, 2, c + [a] + [a], a);
    assert Execute(HASTY, 2, c + [a] + [a] + [a]) == Two(FRESH, (Returned(Failure), Waiting), (1, 0), (0, 0), h, false);
    OneMoreChoice(HASTY, 2, c + [a] + [a] + [a], a);
    assert c + [a] + [a] + [a] + [a] == StaleAdmissionChoices()[..4];
  }

  lemma StaleAdmissionRun()
    ensures Execute(HASTY, 2, StaleAdmissionChoices())
            == Two(FRESH, (Finished, Calling), (1, 1), (1, 0), [Admission(0), Recorded(Failure, 0), Admission(0)], true)
  {
    hide Execute;
    var a, b := Choice(0, 0, Failure), Choice(1, 0, Failure);
    var h: seq<Event> := [Admission(0)];
    var d := StaleAdmissionChoices()[..4];
    OneFailsRun();
    OneMoreChoice(HASTY, 2, d, b);
    assert Execute(HASTY, 2, d + [b])
           == Two(FRESH, (Recording(Failure, FRESH), Admitting(FRESH)), (1, 0), (0, 0), h, false);
    OneMoreChoice(HASTY, 2, d + [b], a);
    assert Execute(HASTY, 2, d + [b] + [a])
           == Two(Node(Open(0), 0, 0), (Finished, Admitting(FRESH)), (1, 0), (1, 0), h + [Recorded(Failure, 0)], false);
    OneMoreChoice(HASTY, 2, d + [b] + [a], b);
    assert d + [b] + [a] + [b] == StaleAdmissionChoices();
  }

  /** A stale admission does worse than lose a count: it closes a circuit that is open, at once, and lets out a call
      that the atomic run refuses. */
  lemma StaleAdmissionClosesAnOpenCircuit()
    ensures var s := Execute(HASTY, 2, StaleAdmissionChoices());
            && s.node == FRESH && s.tasks[1] == Calling && s.calls == [1, 1] && |s.history| == 3
            && var atomic := Replay(HASTY, s.history[..2]); atomic == Node(Open(0), 0, 0) && !Admit(HASTY, atomic, 0).1
  {
    StaleAdmissionRun();
    var a, r := Admission(0), Recorded(Failure, 0);
    assert [a, r, a][..2] == [a, r] && [a, r][..1] == [a] && [a][..0] == [];
    assert Replay(HASTY, [a]) == FRESH;
  }
}
