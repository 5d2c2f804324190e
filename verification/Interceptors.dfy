/**
 What interceptors can do to a call that has not been sent.

 An interceptor sees a pending call only through its interface: it looks at it, sets its timeout, and adds headers.
 `Hook` is every program over that interface.
 */
module Interceptors {
  import opened Common
  import opened CallContract
  import opened Metadata

  /** A call about to be sent. */
  datatype Pending = Pending(path: string, timeout: Option<nat>, metadata: Metadata)

  function HeaderValues(rules: Rules, call: Pending, key: string): seq<string> {
    var values := Values(rules, call.metadata, key);
    if values.Some? then values.value else []
  }

  predicate HasHeader(rules: Rules, call: Pending, key: string) { HeaderValues(rules, call, key) != [] }

  /** A `before_call`: it may end, refuse the call, branch on anything it can see, set the timeout, or add a header
      and go on by whether that worked. */
  datatype Hook =
    | Accept
    | Refuse(error: CallError)
    | Inspect(test: Pending -> bool, yes: Hook, no: Hook)
    | SetTimeout(timeout: Pending -> Option<nat>, next: Hook)
    | AddHeader(entry: Pending -> Entry, added: Hook, refused: Hook)

  const INVALID_HEADER: CallError := Transport(InvalidArgument)

  /** The call a hook leaves behind, and the error it refuses it with, if it does. */
  function Perform(rules: Rules, hook: Hook, call: Pending): (Pending, Option<CallError>)
    decreases hook
  {
    match hook
    case Accept => (call, None)
    case Refuse(error) => (call, Some(error))
    case Inspect(test, yes, no) => if test(call) then Perform(rules, yes, call) else Perform(rules, no, call)
    case SetTimeout(timeout, next) => Perform(rules, next, call.(timeout := timeout(call)))
    case AddHeader(entry, added, refused) =>
      var metadata := Appended(rules, call.metadata, entry(call));
      if metadata.Some? then Perform(rules, added, call.(metadata := metadata.value)) else Perform(rules, refused, call)
  }

  /** The hooks of a chain in order, up to the first that refuses the call. */
  function PerformAll(rules: Rules, hooks: seq<Hook>, call: Pending): (Pending, Option<CallError>) {
    if hooks == [] then (call, None) else
    var (next, error) := Perform(rules, hooks[0], call);
    if error.Some? then (next, error) else PerformAll(rules, hooks[1..], next)
  }

  class PendingCall {
    const rules: Rules
    const path: string
    var timeout: Option<nat>
    var metadata: Metadata

    function Now(): Pending
      reads this
    {
      Pending(path, timeout, metadata)
    }

    constructor (rules: Rules, path: string, timeout: Option<nat>, metadata: Metadata)
      ensures this.rules == rules && Now() == Pending(path, timeout, metadata)
    {
      this.rules, this.path, this.timeout, this.metadata := rules, path, timeout, metadata;
    }

    method SetTimeoutTo(timeout: Option<nat>)
      modifies this
      ensures Now() == old(Now()).(timeout := timeout)
    {
      this.timeout := timeout;
    }

    method AddHeaderEntry(entry: Entry) returns (error: Option<CallError>)
      modifies this
      ensures var m := Appended(rules, old(metadata), entry);
              if m.Some? then error == None && Now() == old(Now()).(metadata := m.value)
              else error == Some(Transport(InvalidArgument)) && Now() == old(Now())
    {
      var extended := Append(rules, metadata, entry);
      if extended.None? {
        return Some(INVALID_HEADER);
      }
      metadata := extended.value;
      error := None;
    }

    /** Lets a hook work on the call. */
    method Intercept(hook: Hook) returns (error: Option<CallError>)
      modifies this
      ensures (Now(), error) == Perform(rules, hook, old(Now()))
      decreases hook
    {
      match hook
      case Accept => error := None;
      case Refuse(why) => error := Some(why);
      case Inspect(test, yes, no) =>
        if test(Now()) {
          error := Intercept(yes);
        } else {
          error := Intercept(no);
        }
      case SetTimeout(timeout, next) =>
        SetTimeoutTo(timeout(Now()));
        error := Intercept(next);
      case AddHeader(entry, added, refused) =>
        var failed := AddHeaderEntry(entry(Now()));
        if failed.None? {
          error := Intercept(added);
        } else {
          error := Intercept(refused);
        }
    }
  }

  /** Lets every hook of a chain work on the call, until one refuses it. */
  method RunBefore(hooks: seq<Hook>, call: PendingCall) returns (error: Option<CallError>)
    modifies call
    ensures (call.Now(), error) == PerformAll(call.rules, hooks, old(call.Now()))
  {
    for i := 0 to |hooks|
      invariant PerformAll(call.rules, hooks, old(call.Now())) == PerformAll(call.rules, hooks[i..], call.Now())
    {
      assert hooks[i..][1..] == hooks[i + 1..];
      error := call.Intercept(hooks[i]);
      if error.Some? {
        return;
      }
    }
    error := None;
  }

  // ---------------------------------------------------------------- whatever they do

  /** Only headers were added, after those that were there. */
  ghost predicate Grew(before: Pending, after: Pending) {
    && after.path == before.path
    && before.metadata.text <= after.metadata.text
    && after.metadata.binary == before.metadata.binary
  }

  lemma {:induction false} AnyHookOnlyAdds(rules: Rules, hook: Hook, call: Pending)
    ensures Grew(call, Perform(rules, hook, call).0)
    decreases hook
  {
    match hook
    case Accept =>
    case Refuse(_) =>
    case Inspect(test, yes, no) =>
      AnyHookOnlyAdds(rules, yes, call);
      AnyHookOnlyAdds(rules, no, call);
    case SetTimeout(timeout, next) =>
      AnyHookOnlyAdds(rules, next, call.(timeout := timeout(call)));
    case AddHeader(entry, added, refused) =>
      AnyHookOnlyAdds(rules, refused, call);
      var m := Appended(rules, call.metadata, entry(call));
      if m.Some? {
        AnyHookOnlyAdds(rules, added, call.(metadata := m.value));
      }
  }

  /** Whatever the interceptors of a chain are, the text entries of the call stay first and in order, and its binary
      entries and its path stay as they were, refused or not. */
  lemma {:induction false} AnyChainOnlyAdds(rules: Rules, hooks: seq<Hook>, call: Pending)
    ensures Grew(call, PerformAll(rules, hooks, call).0)
  {
    if hooks != [] {
      AnyHookOnlyAdds(rules, hooks[0], call);
      var (next, error) := Perform(rules, hooks[0], call);
      if error.None? {
        AnyChainOnlyAdds(rules, hooks[1..], next);
      }
    }
  }

  /** A chain runs its first part, and the second on what the first left if that refused nothing: after the first
      refusal no hook runs, and the call stays as it was then. */
  lemma {:induction false} ChainsCompose(rules: Rules, first: seq<Hook>, second: seq<Hook>, call: Pending)
    ensures var (next, error) := PerformAll(rules, first, call);
            PerformAll(rules, first + second, call) ==
            if error.Some? then (next, error) else PerformAll(rules, second, next)
  {
    if first == [] {
      assert first + second == second;
    } else {
      var (next, error) := Perform(rules, first[0], call);
      assert (first + second)[0] == first[0] && (first + second)[1..] == first[1..] + second;
      if error.None? {
        ChainsCompose(rules, first[1..], second, next);
      }
    }
  }

  // ---------------------------------------------------------------- the two interceptors of the repository

  const AUTHORIZATION: string := "authorization"
  const TRACEPARENT: string := "traceparent"
  const TRACESTATE: string := "tracestate"

  datatype TraceSource = PassThrough | Static(traceparent: string, tracestate: Option<string>)

  /** `Bearer(token)` holds the token that signing gives this time, if it gives one. */
  datatype Known = Bearer(token: Option<string>) | Trace(source: TraceSource)

  /** Adds a header, and refuses the call when the header is refused. */
  function Adding(key: string, value: string, next: Hook): Hook {
    AddHeader(_ => Entry(key, value), next, Refuse(INVALID_HEADER))
  }

  function HookOf(rules: Rules, known: Known): Hook {
    match known
    case Bearer(token) =>
      Inspect(call => HasHeader(rules, call, AUTHORIZATION), Accept,
              if token.None? then Refuse(Transport(Internal))
              else Adding(AUTHORIZATION, "Bearer " + token.value, Accept))
    case Trace(source) =>
      Inspect(call => HasHeader(rules, call, TRACEPARENT), Accept,
              match source
              case PassThrough => Accept
              case Static(traceparent, tracestate) =>
                Adding(TRACEPARENT, traceparent,
                       if tracestate.None? then Accept else Adding(TRACESTATE, tracestate.value, Accept)))
  }

  function HooksOf(rules: Rules, known: seq<Known>): seq<Hook> {
    if known == [] then [] else [HookOf(rules, known[0])] + HooksOf(rules, known[1..])
  }

  predicate AddsTrace(known: Known) { known.Trace? && known.source.Static? }

  /** The header names of the repository are keys that can be looked up. */
  predicate KnowsKeys(rules: Rules) { rules.isKey(AUTHORIZATION) && rules.isKey(TRACEPARENT) }

  function ValuesIn(call: Pending, key: string): seq<string> { ValuesOf(call.metadata.text, key) }

  lemma OneMoreValue(text: seq<Entry>, e: Entry, key: string)
    ensures ValuesOf(text + [e], key) == ValuesOf(text, key) + if e.key == key then [e.value] else []
  {
  }

  lemma KeysDiffer()
    ensures AUTHORIZATION != TRACEPARENT && AUTHORIZATION != TRACESTATE && TRACEPARENT != TRACESTATE
  {
  }

  /** A hook that adds a header and lets the call go has appended it. */
  lemma AddingAppends(rules: Rules, key: string, value: string, next: Hook, call: Pending)
    requires Perform(rules, Adding(key, value, next), call).1.None?
    ensures Perform(rules, Adding(key, value, next), call)
            == Perform(rules, next, call.(metadata := call.metadata.(text := call.metadata.text + [Entry(key, value)])))
  {
  }

  /** What a bearer interceptor does to the values of a key when it lets the call go. */
  lemma BearerValues(rules: Rules, token: Option<string>, call: Pending, key: string)
    requires KnowsKeys(rules) && Perform(rules, HookOf(rules, Bearer(token)), call).1.None?
    ensures var after := Perform(rules, HookOf(rules, Bearer(token)), call).0;
            if ValuesIn(call, AUTHORIZATION) == [] && key == AUTHORIZATION
            then token.Some? && ValuesIn(after, key) == ["Bearer " + token.value]
            else ValuesIn(after, key) == ValuesIn(call, key)
  {
    if ValuesIn(call, AUTHORIZATION) == [] && token.Some? {
      AddingAppends(rules, AUTHORIZATION, "Bearer " + token.value, Accept, call);
      OneMoreValue(call.metadata.text, Entry(AUTHORIZATION, "Bearer " + token.value), key);
    }
  }

  /** The header names must be ones that can be looked up: a bearer interceptor that cannot see the caller's own
      `authorization` adds another. */
  lemma UnseenHeaderIsAddedAgain(rules: Rules, token: string, call: Pending)
    requires !rules.isKey(AUTHORIZATION) && Perform(rules, HookOf(rules, Bearer(Some(token))), call).1.None?
    ensures ValuesIn(Perform(rules, HookOf(rules, Bearer(Some(token))), call).0, AUTHORIZATION)
            == ValuesIn(call, AUTHORIZATION) + ["Bearer " + token]
  {
    AddingAppends(rules, AUTHORIZATION, "Bearer " + token, Accept, call);
    OneMoreValue(call.metadata.text, Entry(AUTHORIZATION, "Bearer " + token), AUTHORIZATION);
  }

  /** What a static source adds under a key. */
  function TraceAdds(source: TraceSource, key: string): seq<string> {
    match source
    case PassThrough => []
    case Static(traceparent, tracestate) =>
      if key == TRACEPARENT then [traceparent]
      else if key == TRACESTATE && tracestate.Some? then [tracestate.value]
      else []
  }

  /** What a trace-context interceptor does to them. */
  lemma TraceValues(rules: Rules, source: TraceSource, call: Pending, key: string)
    requires KnowsKeys(rules) && Perform(rules, HookOf(rules, Trace(source)), call).1.None?
    ensures var after := Perform(rules, HookOf(rules, Trace(source)), call).0;
            ValuesIn(after, key) ==
            ValuesIn(call, key) + if ValuesIn(call, TRACEPARENT) == [] then TraceAdds(source, key) else []
  {
    KeysDiffer();
    if ValuesIn(call, TRACEPARENT) == [] && source.Static? {
      var first := Entry(TRACEPARENT, source.traceparent);
      var next := if source.tracestate.None? then Accept else Adding(TRACESTATE, source.tracestate.value, Accept);
      var between := call.(metadata := call.metadata.(text := call.metadata.text + [first]));
      assert Perform(rules, Adding(TRACEPARENT, source.traceparent, next), call)
             == Perform(rules, HookOf(rules, Trace(source)), call);
      hide HookOf, ValuesOf;
      AddingAppends(rules, TRACEPARENT, source.traceparent, next, call);
      OneMoreValue(call.metadata.text, first, key);
      if source.tracestate.Some? {
        AddingAppends(rules, TRACESTATE, source.tracestate.value, Accept, between);
        OneMoreValue(between.metadata.text, Entry(TRACESTATE, source.tracestate.value), key);
      }
    }
  }

  /** A caller's own `tracestate` does not keep a source from adding its own beside it: only a `traceparent` does. */
  lemma OwnTraceStateGetsASecond(rules: Rules, traceparent: string, tracestate: string, call: Pending, own: string)
    requires KnowsKeys(rules) && ValuesIn(call, TRACEPARENT) == [] && ValuesIn(call, TRACESTATE) == [own]
    requires Perform(rules, HookOf(rules, Trace(Static(traceparent, Some(tracestate)))), call).1.None?
    ensures ValuesIn(Perform(rules, HookOf(rules, Trace(Static(traceparent, Some(tracestate)))), call).0, TRACESTATE)
            == [own, tracestate]
  {
    KeysDiffer();
    TraceValues(rules, Static(traceparent, Some(tracestate)), call, TRACESTATE);
  }

  /** What one known interceptor does to the values of a key when it lets the call go. */
  lemma KnownHookValues(rules: Rules, known: Known, call: Pending, key: string)
    requires KnowsKeys(rules) && Perform(rules, HookOf(rules, known), call).1.None?
    ensures var after := Perform(rules, HookOf(rules, known), call).0;
            && (key == AUTHORIZATION ==>
                  if ValuesIn(call, key) == [] && known.Bearer? then |ValuesIn(after, key)| == 1
                  else ValuesIn(after, key) == ValuesIn(call, key))
            && (key == TRACEPARENT ==>
                  if ValuesIn(call, key) == [] && AddsTrace(known) then |ValuesIn(after, key)| == 1
                  else ValuesIn(after, key) == ValuesIn(call, key))
            && (key !in {AUTHORIZATION, TRACEPARENT, TRACESTATE} ==> ValuesIn(after, key) == ValuesIn(call, key))
  {
    hide HookOf, Perform;
    KeysDiffer();
    match known
    case Bearer(token) => BearerValues(rules, token, call, key);
    case Trace(source) => TraceValues(rules, source, call, key);
  }

  /** However many bearer and trace-context interceptors a chain has and however they are mixed, a call it lets go has
      at most one value more for `authorization` and for `traceparent`, none if the caller had one, and just one if
      the caller had none and the chain has an interceptor that adds it; any other key but `tracestate` keeps its
      values. */
  lemma {:induction false} KnownChainAddsOnce(rules: Rules, known: seq<Known>, call: Pending, key: string)
    requires KnowsKeys(rules) && PerformAll(rules, HooksOf(rules, known), call).1.None?
    ensures var after := PerformAll(rules, HooksOf(rules, known), call).0;
            && (key == AUTHORIZATION ==>
                  if ValuesIn(call, key) == [] && (exists k :: k in known && k.Bearer?) then |ValuesIn(after, key)| == 1
                  else ValuesIn(after, key) == ValuesIn(call, key))
            && (key == TRACEPARENT ==>
                  if ValuesIn(call, key) == [] && (exists k :: k in known && AddsTrace(k))
                  then |ValuesIn(after, key)| == 1
                  else ValuesIn(after, key) == ValuesIn(call, key))
            && (key !in {AUTHORIZATION, TRACEPARENT, TRACESTATE} ==> ValuesIn(after, key) == ValuesIn(call, key))
  {
    if known != [] {
      var hooks := HooksOf(rules, known);
      assert hooks[0] == HookOf(rules, known[0]) && hooks[1..] == HooksOf(rules, known[1..]);
      var next := Perform(rules, hooks[0], call).0;
      KnownHookValues(rules, known[0], call, key);
      KnownChainAddsOnce(rules, known[1..], next, key);
      assert forall k :: k in known <==> k == known[0] || k in known[1..];
    }
  }

  /** What the first static source of a chain adds under a key. */
  function FirstTraceAdds(known: seq<Known>, key: string): (added: seq<string>)
    ensures |added| <= 1
  {
    if known == [] then []
    else if AddsTrace(known[0]) then TraceAdds(known[0].source, key)
    else FirstTraceAdds(known[1..], key)
  }

  /** To a call without a `traceparent` such a chain adds just the `traceparent` and the `tracestate`, if it has one,
      of its first static source; to a call with one it adds neither. */
  lemma {:induction false} KnownChainTraces(rules: Rules, known: seq<Known>, call: Pending, key: string)
    requires KnowsKeys(rules) && PerformAll(rules, HooksOf(rules, known), call).1.None?
    requires key in {TRACEPARENT, TRACESTATE}
    ensures ValuesIn(PerformAll(rules, HooksOf(rules, known), call).0, key) ==
            ValuesIn(call, key) + if ValuesIn(call, TRACEPARENT) == [] then FirstTraceAdds(known, key) else []
  {
    if known != [] {
      hide HookOf, Perform, ValuesIn;
      var hooks := HooksOf(rules, known);
      assert hooks[0] == HookOf(rules, known[0]) && hooks[1..] == HooksOf(rules, known[1..]);
      KeysDiffer();
      match known[0] {
        case Bearer(token) =>
          BearerValues(rules, token, call, key);
          BearerValues(rules, token, call, TRACEPARENT);
        case Trace(source) =>
          TraceValues(rules, source, call, key);
          TraceValues(rules, source, call, TRACEPARENT);
      }
      KnownChainTraces(rules, known[1..], Perform(rules, hooks[0], call).0, key);
    }
  }

  /** The last timeout set by a chain is the one the call leaves with, and setting it changes nothing else. */
  lemma LastTimeoutWins(rules: Rules, first: seq<Hook>, timeout: Pending -> Option<nat>, call: Pending)
    ensures var (before, error) := PerformAll(rules, first, call);
            PerformAll(rules, first + [SetTimeout(timeout, Accept)], call) ==
            if error.Some? then (before, error)
            else (Pending(before.path, timeout(before), before.metadata), None)
  {
    var last := [SetTimeout(timeout, Accept)];
    ChainsCompose(rules, first, last, call);
    var before := PerformAll(rules, first, call).0;
    var after := Pending(before.path, timeout(before), before.metadata);
    assert Perform(rules, last[0], before) == Perform(rules, Accept, after) == (after, None);
    assert last[1..] == [] && PerformAll(rules, [], after) == (after, None);
  }

  /** The hook sets no timeout, whatever it sees. */
  predicate SetsNoTimeout(hook: Hook) {
    match hook
    case SetTimeout(_, _) => false
    case Inspect(_, yes, no) => SetsNoTimeout(yes) && SetsNoTimeout(no)
    case AddHeader(_, added, refused) => SetsNoTimeout(added) && SetsNoTimeout(refused)
    case _ => true
  }

  lemma {:induction false} TimeoutStays(rules: Rules, hook: Hook, call: Pending)
    requires SetsNoTimeout(hook)
    ensures Perform(rules, hook, call).0.timeout == call.timeout
    decreases hook
  {
    match hook
    case Accept =>
    case Refuse(_) =>
    case Inspect(test, yes, no) =>
      TimeoutStays(rules, yes, call);
      TimeoutStays(rules, no, call);
    case AddHeader(entry, added, refused) =>
      TimeoutStays(rules, refused, call);
      var m := Appended(rules, call.metadata, entry(call));
      if m.Some? {
        TimeoutStays(rules, added, call.(metadata := m.value));
      }
  }

  /** The bearer and the trace-context interceptors set none. */
  lemma KnownHooksSetNoTimeout(rules: Rules, known: Known)
    ensures SetsNoTimeout(HookOf(rules, known))
  {
  }

  /** A chain of hooks that set none leaves the caller's timeout, refused or not. */
  lemma {:induction false} CallersTimeoutStays(rules: Rules, hooks: seq<Hook>, call: Pending)
    requires forall hook :: hook in hooks ==> SetsNoTimeout(hook)
    ensures PerformAll(rules, hooks, call).0.timeout == call.timeout
  {
    hide Perform;
    if hooks != [] {
      TimeoutStays(rules, hooks[0], call);
      CallersTimeoutStays(rules, hooks[1..], Perform(rules, hooks[0], call).0);
    }
  }

  /** What a bearer interceptor does in every case: a call with an `authorization` is let go as it is; without a token
      the call is refused as an internal failure, and with one that is not accepted as an invalid header. */
  lemma BearerOutcome(rules: Rules, token: Option<string>, call: Pending)
    requires KnowsKeys(rules)
    ensures Perform(rules, HookOf(rules, Bearer(token)), call) ==
            if ValuesIn(call, "authorization") != [] then (call, None)
            else if token.None? then (call, Some(Transport(Internal)))
            else
              var m := Appended(rules, call.metadata, Entry("authorization", "Bearer " + token.value));
              if m.None? then (call, Some(Transport(InvalidArgument))) else (call.(metadata := m.value), None)
  {
  }

  /** What a trace-context interceptor does in every case; when only its `tracestate` is refused, the `traceparent`
      stays. */
  lemma TraceOutcome(rules: Rules, traceparent: string, tracestate: Option<string>, call: Pending)
    requires KnowsKeys(rules)
    ensures Perform(rules, HookOf(rules, Trace(PassThrough)), call) == (call, None)
    ensures Perform(rules, HookOf(rules, Trace(Static(traceparent, tracestate))), call) ==
            if ValuesIn(call, "traceparent") != [] then (call, None)
            else
              var parent := Appended(rules, call.metadata, Entry("traceparent", traceparent));
              if parent.None? then (call, Some(Transport(InvalidArgument)))
              else if tracestate.None? then (call.(metadata := parent.value), None)
              else
                var state := Appended(rules, parent.value, Entry("tracestate", tracestate.value));
                if state.None? then (call.(metadata := parent.value), Some(Transport(InvalidArgument)))
                else (call.(metadata := state.value), None)
  {
  }
}
