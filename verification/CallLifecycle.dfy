/** A call through the interceptor chain: what is sent, what the caller gets, and which events the chain is told. */
module CallLifecycle {
  import opened Common
  import opened CallContract
  import opened Metadata
  import opened Interceptors
  import opened StreamLifecycle

  /** A completed reply as `after_call` sees it. */
  datatype Reply = Reply(path: string, headers: Metadata, trailers: Metadata)

  datatype Interceptor = Interceptor(before: Hook, after: Reply -> Option<CallError>)

  /** The reply of a unary or client-streaming call. */
  datatype Response = Response(headers: View, trailers: View)

  /** What comes of a call: its result, the calls that reached the wrapped client, the events told to the chain. */
  datatype Handled<+R> = Handled(result: CallResult<R>, sent: seq<Pending>, events: seq<Event>)

  function Hooks(chain: seq<Interceptor>): seq<Hook> {
    seq(|chain|, i requires 0 <= i < |chain| => chain[i].before)
  }

  /** Hook `i` is reached, and refuses the call with this error. */
  predicate HookAt(rules: Rules, hooks: seq<Hook>, call: Pending, error: CallError, i: int) {
    && 0 <= i < |hooks| && PerformAll(rules, hooks[..i], call).1.None?
    && Perform(rules, hooks[i], PerformAll(rules, hooks[..i], call).0).1 == Some(error)
  }

  lemma {:induction false} HookRefusesFrom(rules: Rules, hooks: seq<Hook>, call: Pending, error: CallError)
    ensures PerformAll(rules, hooks, call).1 == Some(error) <==> exists i :: HookAt(rules, hooks, call, error, i)
    decreases |hooks|
  {
    hide Perform;
    if hooks != [] {
      var init, last := hooks[..|hooks| - 1], hooks[|hooks| - 1];
      HookRefusesFrom(rules, init, call, error);
      ChainsCompose(rules, init, [last], call);
      assert hooks == init + [last] && [last][1..] == [];
      assert forall i :: 0 <= i < |init| ==> hooks[..i] == init[..i] && hooks[i] == init[i];
      forall i ensures HookAt(rules, hooks, call, error, i) <==>
                         HookAt(rules, init, call, error, i)
                         || (i == |init| && PerformAll(rules, init, call).1.None?
                             && Perform(rules, last, PerformAll(rules, init, call).0).1 == Some(error)) {
      }
      if && PerformAll(rules, init, call).1.None?
         && Perform(rules, last, PerformAll(rules, init, call).0).1 == Some(error) {
        assert HookAt(rules, hooks, call, error, |init|);
      }
      if exists i :: HookAt(rules, init, call, error, i) {
        var i :| HookAt(rules, init, call, error, i);
        assert HookAt(rules, hooks, call, error, i);
      }
    }
  }

  /** The first refusal of a reply. */
  function RefusalOf(chain: seq<Interceptor>, reply: Reply): Option<CallError> {
    if chain == [] then None else
    var error := chain[0].after(reply);
    if error.Some? then error else RefusalOf(chain[1..], reply)
  }

  /** A reply is refused exactly when some interceptor refuses it, and then as the first one says. */
  lemma {:induction false} FirstRefusalCounts(chain: seq<Interceptor>, reply: Reply, error: CallError)
    ensures RefusalOf(chain, reply).None? <==> forall i :: 0 <= i < |chain| ==> chain[i].after(reply).None?
    ensures RefusalOf(chain, reply) == Some(error) <==>
              exists i :: 0 <= i < |chain| && chain[i].after(reply) == Some(error)
                          && forall j :: 0 <= j < i ==> chain[j].after(reply).None?
  {
    if chain != [] {
      var rest := chain[1..];
      FirstRefusalCounts(rest, reply, error);
      assert forall i :: 1 <= i < |chain| ==> chain[i] == rest[i - 1];
      if chain[0].after(reply).None? {
        if RefusalOf(rest, reply) == Some(error) {
          var i :| 0 <= i < |rest| && rest[i].after(reply) == Some(error)
                   && forall j :: 0 <= j < i ==> rest[j].after(reply).None?;
          assert chain[i + 1] == rest[i];
        }
        if i :| 0 <= i < |chain| && chain[i].after(reply) == Some(error)
                && forall j :: 0 <= j < i ==> chain[j].after(reply).None? {
          assert rest[i - 1] == chain[i];
          assert forall j :: 0 <= j < i - 1 ==> rest[j] == chain[j + 1];
        }
      }
    }
  }

  /** The call as it is sent, or why it is refused. */
  function Before(rules: Rules, chain: seq<Interceptor>, call: Pending): Result<Pending, CallError> {
    var (next, error) := PerformAll(rules, Hooks(chain), call);
    if error.Some? then Err(error.value) else Ok(next)
  }

  /** Why a reply is turned into a failure, if it is: its metadata cannot be copied, or an interceptor refuses it. An
      empty chain looks at nothing. */
  function AfterFailure(rules: Rules, chain: seq<Interceptor>, path: string, response: Response): Option<CallError> {
    if chain == [] then None else
    var headers, trailers := Copied(rules, response.headers), Copied(rules, response.trailers);
    if headers.None? || trailers.None? then Some(Transport(Internal))
    else RefusalOf(chain, Reply(path, headers.value, trailers.value))
  }

  /** The `Completed` event carries copies of the metadata, and is not told when they cannot be made. */
  predicate CompletedIsTold(rules: Rules, headers: Option<View>, trailers: View) {
    Copied(rules, trailers).Some? && (headers.Some? ==> Copied(rules, headers.value).Some?)
  }

  /** A unary or client-streaming call to which the wrapped client would answer `answer`. */
  function HandledUnary(rules: Rules, chain: seq<Interceptor>, call: Pending, answer: CallResult<Response>)
    : Handled<Response>
  {
    match Before(rules, chain, call)
    case Err(error) => Handled(Err(error), [], [])
    case Ok(outbound) =>
      match answer
      case Err(error) => Handled(Err(error), [outbound], [Started, Failed])
      case Ok(response) =>
        var failure := AfterFailure(rules, chain, call.path, response);
        if failure.Some? then Handled(Err(failure.value), [outbound], [Started, Failed])
        else
          var told := CompletedIsTold(rules, Some(response.headers), response.trailers);
          Handled(Ok(response), [outbound], [Started] + if told then [Completed] else [])
  }

  /** A call whose answer is a stream: refused, failed to open, or open and then used by `ops`. */
  function StreamEvents(rules: Rules, chain: seq<Interceptor>, call: Pending, opens: bool, headersOk: bool,
                        ops: seq<Op>)
    : seq<Event>
    requires Run(headersOk, ops).Some?
  {
    if Before(rules, chain, call).Err? then []
    else [Started] + if opens then Run(headersOk, ops).value.events else [Failed]
  }

  class InterceptedTransport {
    const rules: Rules
    const chain: seq<Interceptor>
    var sent: seq<Pending>
    var told: seq<Event>

    constructor (rules: Rules, chain: seq<Interceptor>)
      ensures this.rules == rules && this.chain == chain && sent == [] && told == []
    {
      this.rules, this.chain := rules, chain;
      sent, told := [], [];
    }

    method RunEvent(event: Event)
      modifies `told
      ensures told == old(told) + [event]
    {
      told := told + [event];
    }

    /** Adapts the completed event: it is told with copies of its metadata, or not at all. A stream completes without
        its headers. */
    method OnCompleted(headers: Option<View>, trailers: View)
      modifies `told
      ensures told == old(told) + if CompletedIsTold(rules, headers, trailers) then [Completed] else []
    {
      var trailersCopy := Copy(rules, trailers);
      if trailersCopy.Some? {
        if headers.Some? {
          var headersCopy := Copy(rules, headers.value);
          if headersCopy.Some? {
            RunEvent(Completed);
          }
        } else {
          RunEvent(Completed);
        }
      }
    }

    method RunBeforeHooks(call: Pending) returns (r: Result<Pending, CallError>)
      modifies `told
      ensures r == Before(rules, chain, call)
      ensures told == old(told) + if r.Ok? then [Started] else []
    {
      var outbound := call;
      if chain != [] {
        var pending := new PendingCall(rules, call.path, call.timeout, call.metadata);
        var error := RunBefore(Hooks(chain), pending);
        if error.Some? {
          return Err(error.value);
        }
        outbound := pending.Now();
      }
      RunEvent(Started);
      r := Ok(outbound);
    }

    method RunAfterHooks(path: string, response: Response) returns (failure: Option<CallError>)
      ensures failure == AfterFailure(rules, chain, path, response)
    {
      if chain == [] {
        return None;
      }
      var headers := Copy(rules, response.headers);
      if headers.None? {
        return Some(Transport(Internal));
      }
      var trailers := Copy(rules, response.trailers);
      if trailers.None? {
        return Some(Transport(Internal));
      }
      var reply := Reply(path, headers.value, trailers.value);
      for i := 0 to |chain|
        invariant RefusalOf(chain, reply) == RefusalOf(chain[i..], reply)
      {
        assert chain[i..][1..] == chain[i + 1..];
        failure := chain[i].after(reply);
        if failure.Some? {
          return;
        }
      }
      failure := None;
    }

    /** A unary or client-streaming call. */
    method Call(call: Pending, answer: CallResult<Response>) returns (result: CallResult<Response>)
      modifies this
      ensures var handled := HandledUnary(rules, chain, call, answer);
              result == handled.result && sent == old(sent) + handled.sent && told == old(told) + handled.events
    {
      var outbound := RunBeforeHooks(call);
      if outbound.Err? {
        return Err(outbound.error);
      }
      sent := sent + [outbound.value];
      if answer.Err? {
        RunEvent(Failed);
        return answer;
      }
      var failure := RunAfterHooks(call.path, answer.value);
      if failure.Some? {
        RunEvent(Failed);
        return Err(failure.value);
      }
      OnCompleted(Some(answer.value.headers), answer.value.trailers);
      result := answer;
    }

    /** A call whose answer is a stream; `answer` says whether the wrapped client opens it, and whether it then has its
        headers. What the stream reports goes on from its own events. */
    method OpenStream(call: Pending, answer: CallResult<bool>) returns (result: CallResult<PatternResponseStream>)
      modifies this
      ensures result.Ok? <==> Before(rules, chain, call).Ok? && answer.Ok?
      ensures result.Ok? ==> fresh(result.value) && result.value.Now() == HandedOut(answer.value)
      ensures result.Err? ==>
                result.error ==
                if Before(rules, chain, call).Err? then Before(rules, chain, call).error else answer.error
      ensures sent == old(sent) + if Before(rules, chain, call).Ok? then [Before(rules, chain, call).value] else []
      ensures told + (if result.Ok? then result.value.events else [])
              == old(told) + StreamEvents(rules, chain, call, answer.Ok?, answer == Ok(true), [])
    {
      var outbound := RunBeforeHooks(call);
      if outbound.Err? {
        return Err(outbound.error);
      }
      sent := sent + [outbound.value];
      if answer.Err? {
        RunEvent(Failed);
        return Err(answer.error);
      }
      var stream := new PatternResponseStream(answer.value);
      result := Ok(stream);
    }
  }

  /** A call either is refused before anything is sent and nobody is told, or is sent once, with only headers added, and
      the chain is told that it started and then one end of it: a failure exactly when the caller gets an error. The end
      goes untold exactly when the chain is empty and the metadata of a successful reply cannot be copied. */
  lemma OneEndIsTold(rules: Rules, chain: seq<Interceptor>, call: Pending, answer: CallResult<Response>)
    ensures var handled := HandledUnary(rules, chain, call, answer);
            if Before(rules, chain, call).Err? then
              handled.result == Err(Before(rules, chain, call).error) && handled.sent == [] && handled.events == []
            else
              && |handled.sent| == 1 && Grew(call, handled.sent[0])
              && (handled.result.Err? <==> handled.events == [Started, Failed])
              && (handled.result.Ok? <==> handled.events == [Started, Completed] || handled.events == [Started])
              && (handled.events == [Started] <==>
                    chain == [] && answer.Ok?
                    && !CompletedIsTold(rules, Some(answer.value.headers), answer.value.trailers))
              && (handled.result.Ok? ==> handled.result == answer)
  {
    AnyChainOnlyAdds(rules, Hooks(chain), call);
    assert [Started] + [Completed] == [Started, Completed] && [Started] + [] == [Started];
    assert [Started, Completed][1] != [Started, Failed][1];
  }

  lemma {:induction false} TerminalsAfterStart(events: seq<Event>)
    ensures Terminals([Started] + events) == Terminals(events)
  {
    if events == [] {
      assert [Started] + events == [] + [Started];
      CountAppended([], Started, Completed);
      CountAppended([], Started, Failed);
      CountAppended([], Started, Event.Cancelled);
    } else {
      var init, last := events[..|events| - 1], events[|events| - 1];
      TerminalsAfterStart(init);
      assert [Started] + events == ([Started] + init) + [last];
      assert events == init + [last];
      forall event
        ensures CountEvents([Started] + events, event)
                == CountEvents([Started] + init, event) + if last == event then 1 else 0
      {
        CountAppended([Started] + init, last, event);
      }
    }
  }

  /** What the caller of a call that is sent gets: the failure of the wrapped client as it is; the answer as it is,
      when the chain is empty, or its metadata can be copied and no interceptor refuses it; and otherwise an internal
      failure or the refusal. */
  lemma WhatTheCallerGets(rules: Rules, chain: seq<Interceptor>, call: Pending, answer: CallResult<Response>)
    requires Before(rules, chain, call).Ok?
    ensures var result := HandledUnary(rules, chain, call, answer).result;
            && HandledUnary(rules, chain, call, answer).sent == [Before(rules, chain, call).value]
            && (answer.Err? || chain == [] ==> result == answer)
            && (answer.Ok? && chain != [] ==>
                  var headers, trailers := Copied(rules, answer.value.headers), Copied(rules, answer.value.trailers);
                  if headers.None? || trailers.None? then result == Err(Transport(Internal))
                  else
                    var refusal := RefusalOf(chain, Reply(call.path, headers.value, trailers.value));
                    result == if refusal.None? then answer else Err(refusal.value))
  {
  }

  /** The call is refused exactly when a hook refuses what those before it left, and then as that hook says. */
  lemma HookRefuses(rules: Rules, chain: seq<Interceptor>, call: Pending, error: CallError)
    ensures Before(rules, chain, call) == Err(error) <==>
              exists i :: 0 <= i < |chain| && Before(rules, chain[..i], call).Ok?
                          && Perform(rules, chain[i].before, Before(rules, chain[..i], call).value).1 == Some(error)
  {
    hide Perform;
    HookRefusesFrom(rules, Hooks(chain), call, error);
    forall i | 0 <= i < |chain| ensures Hooks(chain[..i]) == Hooks(chain)[..i] && Hooks(chain)[i] == chain[i].before {
    }
    if exists i :: HookAt(rules, Hooks(chain), call, error, i) {
      var i :| HookAt(rules, Hooks(chain), call, error, i);
      assert Before(rules, chain[..i], call).Ok?;
    }
    if i :| 0 <= i < |chain| && Before(rules, chain[..i], call).Ok?
            && Perform(rules, chain[i].before, Before(rules, chain[..i], call).value).1 == Some(error) {
      assert HookAt(rules, Hooks(chain), call, error, i);
    }
  }

  /** Every streaming call that is sent and comes to its end reports that it started, and one end if its caller ended
      the stream no more than once. */
  lemma StreamCallsEnd(rules: Rules, chain: seq<Interceptor>, call: Pending, opens: bool, headersOk: bool, ops: seq<Op>)
    requires Run(headersOk, ops).Some? && Run(headersOk, ops).value.dropped
    ensures var events := StreamEvents(rules, chain, call, opens, headersOk, ops);
            if Before(rules, chain, call).Err? then events == []
            else
              && events == [Started] + (if opens then Run(headersOk, ops).value.events else [Failed])
              && (Terminals(events) == 1 <==> !opens || StopsAtTheEnd(ops))
  {
    OneTerminalEvent(headersOk, ops);
    var events := StreamEvents(rules, chain, call, opens, headersOk, ops);
    if events != [] {
      TerminalsAfterStart(events[1..]);
      assert events == [Started] + events[1..];
      CountAppended([], Failed, Completed);
      CountAppended([], Failed, Failed);
      CountAppended([], Failed, Event.Cancelled);
      assert [] + [Failed] == [Failed];
    }
  }

  /** What the chain is told of the events a stream reports to its adapter: an opened one only when its headers can be
      copied, a completed one only when its trailers can. `carried(k)` is the metadata the k-th carries. */
  function Told(rules: Rules, events: seq<Event>, carried: nat -> View): seq<Event> {
    if events == [] then [] else
    var k := |events| - 1;
    Told(rules, events[..k], carried)
      + if events[k] in {Opened, Completed} && Copied(rules, carried(k)).None? then [] else [events[k]]
  }

  /** One of these events the chain is not told. */
  predicate Loses(rules: Rules, events: seq<Event>, carried: nat -> View, event: Event) {
    exists k | 0 <= k < |events| :: events[k] == event && !CompletedIsTold(rules, None, carried(k))
  }

  lemma OneMoreTold(rules: Rules, init: seq<Event>, last: Event, carried: nat -> View)
    ensures Told(rules, init + [last], carried) ==
            if last in {Opened, Completed} && Copied(rules, carried(|init|)).None? then Told(rules, init, carried)
            else Told(rules, init, carried) + [last]
  {
    assert (init + [last])[..|init|] == init;
    assert Told(rules, init, carried) + [] == Told(rules, init, carried);
  }

  lemma OneMoreLost(rules: Rules, init: seq<Event>, last: Event, carried: nat -> View, event: Event)
    ensures Loses(rules, init + [last], carried, event) <==>
            Loses(rules, init, carried, event) || (last == event && Copied(rules, carried(|init|)).None?)
  {
    var events := init + [last];
    assert events[|init|] == last && forall k :: 0 <= k < |init| ==> events[k] == init[k];
  }

  lemma {:induction false} ToldCounts(rules: Rules, events: seq<Event>, carried: nat -> View, event: Event)
    ensures CountEvents(Told(rules, events, carried), event) <= CountEvents(events, event)
    ensures event !in {Opened, Completed} ==>
              CountEvents(Told(rules, events, carried), event) == CountEvents(events, event)
    ensures event in {Opened, Completed} ==>
              (CountEvents(Told(rules, events, carried), event) < CountEvents(events, event)
               <==> Loses(rules, events, carried, event))
  {
    if events != [] {
      hide *;
      var init, last := events[..|events| - 1], events[|events| - 1];
      assert events == init + [last];
      ToldCounts(rules, init, carried, event);
      OneMoreTold(rules, init, last, carried);
      OneMoreLost(rules, init, last, carried, event);
      CountAppended(init, last, event);
      CountAppended(Told(rules, init, carried), last, event);
    }
  }

  /** Of a streaming call whose caller ends it no more than once the chain is told just one end, unless the stream
      completed with trailers that cannot be copied: then it is told none, even if it is not empty. */
  lemma StreamEndIsTold(rules: Rules, chain: seq<Interceptor>, call: Pending, opens: bool, headersOk: bool,
                        ops: seq<Op>, carried: nat -> View)
    requires Run(headersOk, ops).Some? && Run(headersOk, ops).value.dropped
    requires Before(rules, chain, call).Ok? && (!opens || StopsAtTheEnd(ops))
    ensures var events := StreamEvents(rules, chain, call, opens, headersOk, ops);
            Terminals(Told(rules, events, carried)) == if Loses(rules, events, carried, Completed) then 0 else 1
  {
    StreamCallsEnd(rules, chain, call, opens, headersOk, ops);
    var events := StreamEvents(rules, chain, call, opens, headersOk, ops);
    ToldCounts(rules, events, carried, Completed);
    ToldCounts(rules, events, carried, Failed);
    ToldCounts(rules, events, carried, Event.Cancelled);
  }

  /** Such a stream: it is opened through a chain that is not empty, completes, and its chain is told of no end. */
  lemma CompletedStreamIsUntold(rules: Rules, call: Pending, after: Reply -> Option<CallError>, carried: nat -> View)
    requires Copied(rules, carried(1)).None?
    ensures var chain := [Interceptor(Accept, after)];
            var ops := [ReadTrailers(true), Drop];
            var events := StreamEvents(rules, chain, call, true, false, ops);
            StopsAtTheEnd(ops) && events == [Started, Completed] && Told(rules, events, carried) == [Started]
  {
    var chain := [Interceptor(Accept, after)];
    var first, ops := [ReadTrailers(true)], [ReadTrailers(true), Drop];
    var end: seq<Event> := [Completed];
    assert PerformAll(rules, Hooks(chain), call) == (call, None) by {
      assert Hooks(chain)[0] == Accept && Hooks(chain)[1..] == [];
      assert Perform(rules, Accept, call) == (call, None);
    }
    assert first[..0] == [] && ops[..1] == first && [] + end == end;
    assert Run(false, []) == Some(HandedOut(false));
    assert Run(false, first) == Some(Stream(false, true, 0, false, end));
    assert Run(false, ops) == Some(Stream(false, true, 0, true, end));
    var events := [Started, Completed];
    assert [Started] + end == events;
    assert events[..1] == [Started] && [Started][..0] == [];
    assert Told(rules, [Started], carried) == [Started];
  }
}
