/**
 The events a wrapped response stream reports, over every run of it.

 Reading messages, reading trailers and dropping need the stream to themselves; `get_headers` does not, so several
 threads may be in it at once: each swaps the opened flag in one atomic step, and the one that found it unset reports
 afterwards.
 */
module StreamLifecycle {
  import opened Common

  datatype Event = Started | Opened | MessageRead | Completed | Failed | Cancelled

  /** What the inner stream answers to a read. */
  datatype Read = Message | EndOfMessages | ReadError

  datatype Op =
    | SwapOpened(headersOk: bool)   // the first half of get_headers
    | ReportOpened                  // its second half, in a thread that found the flag unset
    | ReadMessage(read: Read)
    | ReadTrailers(trailersOk: bool)
    | Drop

  /** The flags of the stream, the threads that are about to report it opened, whether it is gone, and what was
      reported. */
  datatype Stream = Stream(isOpened: bool, terminal: bool, reporting: nat, dropped: bool, events: seq<Event>)

  /** A stream as it is handed out: its headers were asked for once, and reported if they were there. */
  function HandedOut(headersOk: bool): Stream {
    Stream(headersOk, false, 0, false, if headersOk then [Opened] else [])
  }

  predicate Exclusive(op: Op) { op.ReadMessage? || op.ReadTrailers? || op.Drop? }

  predicate Enabled(s: Stream, op: Op) {
    !s.dropped && (Exclusive(op) ==> s.reporting == 0) && (op.ReportOpened? ==> s.reporting > 0)
  }

  function Step(s: Stream, op: Op): Stream
    requires Enabled(s, op)
  {
    match op
    case SwapOpened(headersOk) =>
      if !headersOk then s
      else s.(isOpened := true, reporting := if s.isOpened then s.reporting else s.reporting + 1)
    case ReportOpened =>
      s.(reporting := s.reporting - 1, events := s.events + [Opened])
    case ReadMessage(read) =>
      (match read
       case Message => s.(events := s.events + [MessageRead])
       case EndOfMessages => s
       case ReadError => s.(terminal := true, events := s.events + [Failed]))
    case ReadTrailers(trailersOk) =>
      s.(terminal := true, events := s.events + [if trailersOk then Completed else Failed])
    case Drop =>
      s.(dropped := true, events := if s.terminal then s.events else s.events + [Cancelled])
  }

  /** The stream after these operations, if each of them could happen when it did. */
  function Run(headersOk: bool, ops: seq<Op>): Option<Stream> {
    if ops == [] then Some(HandedOut(headersOk)) else
    var op := ops[|ops| - 1];
    match Run(headersOk, ops[..|ops| - 1])
    case None => None
    case Some(s) => if Enabled(s, op) then Some(Step(s, op)) else None
  }

  function CountEvents(events: seq<Event>, event: Event): nat {
    if events == [] then 0
    else CountEvents(events[..|events| - 1], event) + if events[|events| - 1] == event then 1 else 0
  }

  lemma CountAppended(events: seq<Event>, last: Event, event: Event)
    ensures CountEvents(events + [last], event) == CountEvents(events, event) + if last == event then 1 else 0
  {
  }

  /** What an operation is to the caller. */
  datatype Kind = GivesMessage | GivesTrailers | Fails | Other

  function KindOf(op: Op): Kind {
    match op
    case ReadMessage(Message) => GivesMessage
    case ReadMessage(ReadError) => Fails
    case ReadTrailers(trailersOk) => if trailersOk then GivesTrailers else Fails
    case _ => Other
  }

  function CountOps(ops: seq<Op>, kind: Kind): nat {
    if ops == [] then 0 else CountOps(ops[..|ops| - 1], kind) + if KindOf(ops[|ops| - 1]) == kind then 1 else 0
  }

  /** The operation reports an end. */
  predicate Ends(op: Op) { KindOf(op) in {GivesTrailers, Fails} }

  /** How many of each event were reported for these operations. */
  ghost predicate Counts(s: Stream, ops: seq<Op>) {
    && CountEvents(s.events, Opened) + s.reporting == (if s.isOpened then 1 else 0)
    && CountEvents(s.events, MessageRead) == CountOps(ops, GivesMessage)
    && CountEvents(s.events, Completed) == CountOps(ops, GivesTrailers)
    && CountEvents(s.events, Failed) == CountOps(ops, Fails)
    && (s.terminal <==> CountOps(ops, GivesTrailers) + CountOps(ops, Fails) > 0)
    && CountEvents(s.events, Cancelled) == (if s.dropped && !s.terminal then 1 else 0)
  }

  lemma OpsAppended(ops: seq<Op>, op: Op, kind: Kind)
    ensures CountOps(ops + [op], kind) == CountOps(ops, kind) + if KindOf(op) == kind then 1 else 0
  {
  }

  lemma StepCounts(s: Stream, ops: seq<Op>, op: Op)
    requires Counts(s, ops) && Enabled(s, op)
    ensures Counts(Step(s, op), ops + [op])
  {
    hide CountEvents, CountOps;
    forall kind ensures CountOps(ops + [op], kind) == CountOps(ops, kind) + if KindOf(op) == kind then 1 else 0 {
      OpsAppended(ops, op, kind);
    }
    forall last, event
      ensures CountEvents(s.events + [last], event) == CountEvents(s.events, event) + if last == event then 1 else 0
    {
      CountAppended(s.events, last, event);
    }
  }

  /** In every run: the stream is reported opened at most once, however many threads ask for its headers, and once as
      soon as headers were there and nobody is about to say so; a message read is reported once; every failed read and
      every read of trailers is reported once; and dropping reports the call cancelled just when nothing else had
      ended it. */
  lemma {:induction false} EveryRunCounts(headersOk: bool, ops: seq<Op>)
    requires Run(headersOk, ops).Some?
    ensures Counts(Run(headersOk, ops).value, ops)
  {
    if ops == [] {
      assert [Opened][..0] == [];
    } else {
      var init, op := ops[..|ops| - 1], ops[|ops| - 1];
      EveryRunCounts(headersOk, init);
      StepCounts(Run(headersOk, init).value, init, op);
      assert ops == init + [op];
    }
  }

  lemma {:induction false} CountIsMultiplicity(events: seq<Event>, event: Event)
    ensures CountEvents(events, event) == multiset(events)[event]
  {
    if events != [] {
      CountIsMultiplicity(events[..|events| - 1], event);
      assert events == events[..|events| - 1] + [events[|events| - 1]];
    }
  }

  lemma {:induction false} OpsAreMultiplicities(ops: seq<Op>)
    ensures CountOps(ops, GivesMessage) == multiset(ops)[ReadMessage(Message)]
    ensures CountOps(ops, GivesTrailers) == multiset(ops)[ReadTrailers(true)]
    ensures CountOps(ops, Fails) == multiset(ops)[ReadMessage(ReadError)] + multiset(ops)[ReadTrailers(false)]
  {
    if ops != [] {
      OpsAreMultiplicities(ops[..|ops| - 1]);
      assert ops == ops[..|ops| - 1] + [ops[|ops| - 1]];
    }
  }

  lemma {:induction false} FlagsFollow(headersOk: bool, ops: seq<Op>)
    requires Run(headersOk, ops).Some?
    ensures var s := Run(headersOk, ops).value;
            (s.isOpened <==> headersOk || SwapOpened(true) in ops) && (s.dropped <==> Drop in ops)
  {
    if ops != [] {
      FlagsFollow(headersOk, ops[..|ops| - 1]);
      assert ops == ops[..|ops| - 1] + [ops[|ops| - 1]];
    }
  }

  lemma {:induction false} NeverStartsAgain(headersOk: bool, ops: seq<Op>)
    requires Run(headersOk, ops).Some?
    ensures Started !in Run(headersOk, ops).value.events
  {
    if ops != [] {
      NeverStartsAgain(headersOk, ops[..|ops| - 1]);
    }
  }

  /** The same in plain counts. Once nobody is about to report it, a stream is reported opened, once, exactly if it
      was handed out with its headers or some `get_headers` gave them; every other event is reported as often as its
      operation happened; and a dropped stream reports itself cancelled exactly if no read failed and no trailers were
      read. */
  lemma EveryRunReports(headersOk: bool, ops: seq<Op>)
    requires Run(headersOk, ops).Some?
    ensures var s, done := Run(headersOk, ops).value, multiset(ops);
            var reported := multiset(s.events);
            && (s.reporting == 0 ==> reported[Opened] == if headersOk || SwapOpened(true) in ops then 1 else 0)
            && reported[MessageRead] == done[ReadMessage(Message)]
            && reported[Completed] == done[ReadTrailers(true)]
            && reported[Failed] == done[ReadMessage(ReadError)] + done[ReadTrailers(false)]
            && reported[Cancelled] == (if Drop in ops && reported[Completed] + reported[Failed] == 0 then 1 else 0)
            && reported[Started] == 0
  {
    EveryRunCounts(headersOk, ops);
    OpsAreMultiplicities(ops);
    FlagsFollow(headersOk, ops);
    NeverStartsAgain(headersOk, ops);
    var events := Run(headersOk, ops).value.events;
    forall event ensures CountEvents(events, event) == multiset(events)[event] {
      CountIsMultiplicity(events, event);
    }
    hide Run, CountEvents, CountOps;
  }

  /** The caller stops reading once a read failed or the trailers were asked for. */
  ghost predicate StopsAtTheEnd(ops: seq<Op>) {
    forall i, j :: 0 <= i < j < |ops| && Ends(ops[i]) ==> !Ends(ops[j])
  }

  lemma {:induction false} EndsOnce(ops: seq<Op>)
    ensures CountOps(ops, GivesTrailers) + CountOps(ops, Fails) <= 1 <==> StopsAtTheEnd(ops)
    ensures CountOps(ops, GivesTrailers) + CountOps(ops, Fails) == 0 <==> forall i :: 0 <= i < |ops| ==> !Ends(ops[i])
  {
    if ops != [] {
      EndsOnce(ops[..|ops| - 1]);
    }
  }

  /** What an operation alone reports. */
  function EventsOf(op: Op): seq<Event> {
    match op
    case ReportOpened => [Opened]
    case ReadMessage(Message) => [MessageRead]
    case ReadMessage(ReadError) => [Failed]
    case ReadTrailers(trailersOk) => [if trailersOk then Completed else Failed]
    case _ => []
  }

  /** What a stream reports for these operations one by one, from when it is handed out. */
  function AllEventsOf(headersOk: bool, ops: seq<Op>): seq<Event> {
    if ops == [] then if headersOk then [Opened] else []
    else AllEventsOf(headersOk, ops[..|ops| - 1]) + EventsOf(ops[|ops| - 1])
  }

  lemma StepReports(s: Stream, op: Op)
    requires Enabled(s, op)
    ensures Step(s, op).events == s.events + EventsOf(op) + if op.Drop? && !s.terminal then [Cancelled] else []
  {
  }

  lemma {:induction false} RunStep(headersOk: bool, init: seq<Op>, op: Op)
    requires Run(headersOk, init + [op]).Some?
    ensures Run(headersOk, init).Some? && Enabled(Run(headersOk, init).value, op)
    ensures Run(headersOk, init + [op]).value == Step(Run(headersOk, init).value, op)
    ensures AllEventsOf(headersOk, init + [op]) == AllEventsOf(headersOk, init) + EventsOf(op)
  {
    assert (init + [op])[..|init|] == init;
  }

  lemma TerminalIffEnded(headersOk: bool, ops: seq<Op>)
    requires Run(headersOk, ops).Some?
    ensures Run(headersOk, ops).value.terminal <==> exists op :: op in ops && Ends(op)
  {
    EveryRunCounts(headersOk, ops);
    EndsOnce(ops);
    hide Run, CountOps, CountEvents;
  }

  /** And in their order: what is reported is what the operations report, one after the other, and last that the stream
      was cancelled if it was dropped before any of them ended it. */
  lemma {:induction false} EventsInOrder(headersOk: bool, ops: seq<Op>)
    requires Run(headersOk, ops).Some?
    ensures var cancelled := Drop in ops && forall op :: op in ops ==> !Ends(op);
            Run(headersOk, ops).value.events == AllEventsOf(headersOk, ops) + if cancelled then [Cancelled] else []
  {
    if ops != [] {
      var init, op := ops[..|ops| - 1], ops[|ops| - 1];
      assert ops == init + [op];
      RunStep(headersOk, init, op);
      StepReports(Run(headersOk, init).value, op);
      EventsInOrder(headersOk, init);
      FlagsFollow(headersOk, init);
      TerminalIffEnded(headersOk, init);
      assert Drop !in init;
      assert op.Drop? ==> EventsOf(op) == [] && !Ends(op);
      hide Run, Step, EventsOf, AllEventsOf, Ends;
    }
  }

  function Terminals(events: seq<Event>): nat {
    CountEvents(events, Completed) + CountEvents(events, Failed) + CountEvents(events, Cancelled)
  }

  /** A stream that is dropped has reported at least one end, and exactly one if and only if its caller ended it no more
      than once. */
  lemma OneTerminalEvent(headersOk: bool, ops: seq<Op>)
    requires Run(headersOk, ops).Some? && Run(headersOk, ops).value.dropped
    ensures Terminals(Run(headersOk, ops).value.events) >= 1
    ensures Terminals(Run(headersOk, ops).value.events) == 1 <==> StopsAtTheEnd(ops)
  {
    EveryRunCounts(headersOk, ops);
    EndsOnce(ops);
  }

  /** A caller that reads the trailers after a failed read ends the stream twice, and both ends are reported. */
  lemma ReadingOnReportsTwoEnds()
    ensures var run := Run(false, [ReadMessage(ReadError), ReadTrailers(false), Drop]);
            run.Some? && run.value.dropped && run.value.events == [Failed, Failed] && Terminals(run.value.events) == 2
  {
    var one, two := [ReadMessage(ReadError)], [ReadMessage(ReadError), ReadTrailers(false)];
    var all := [ReadMessage(ReadError), ReadTrailers(false), Drop];
    assert one[..0] == [] && two[..1] == one && all[..2] == two;
    assert Run(false, []) == Some(HandedOut(false));
    assert [] + [Failed] == [Failed] && [Failed] + [Failed] == [Failed, Failed];
    assert Run(false, one) == Some(Stream(false, true, 0, false, [Failed]));
    assert Run(false, two) == Some(Stream(false, true, 0, false, [Failed, Failed]));
    assert [Failed, Failed][..1] == [Failed] && [Failed][..0] == [];
    assert CountEvents([Failed], Failed) == 1;
  }

  /** The wrapper itself. `get_headers` is shown for a thread that runs it undisturbed; `SwapOpened` and
      `ReportOpened` are its two halves. */
  class PatternResponseStream {
    var isOpened: bool
    var terminal: bool
    ghost var dropped: bool
    var events: seq<Event>

    ghost function Now(): Stream
      reads this
    {
      Stream(isOpened, terminal, 0, dropped, events)
    }

    constructor (headersOk: bool)
      ensures Now() == HandedOut(headersOk)
    {
      isOpened, terminal, dropped, events := false, false, false, [];
      new;
      NotifyOpened(headersOk);
    }

    method OnEvent(event: Event)
      modifies `events
      ensures events == old(events) + [event]
    {
      events := events + [event];
    }

    /** Asks for the headers when the stream is handed out; a failure is left for a later `get_headers`. */
    method NotifyOpened(headersOk: bool)
      modifies this
      ensures isOpened == (headersOk || old(isOpened)) && terminal == old(terminal) && dropped == old(dropped)
      ensures events == old(events) + if headersOk then [Opened] else []
    {
      if headersOk {
        isOpened := true;
        OnEvent(Opened);
      }
    }

    method GetHeaders(headersOk: bool)
      requires !dropped
      modifies this
      ensures var swapped := Step(old(Now()), SwapOpened(headersOk));
              Now() == if swapped.reporting > 0 then Step(swapped, ReportOpened) else swapped
    {
      if headersOk {
        var was := isOpened;
        isOpened := true;
        if !was {
          OnEvent(Opened);
        }
      }
    }

    method ReadMessageOf(read: Read)
      requires !dropped
      modifies this
      ensures Now() == Step(old(Now()), ReadMessage(read))
    {
      match read
      case Message => OnEvent(MessageRead);
      case EndOfMessages =>
      case ReadError =>
        terminal := true;
        OnEvent(Failed);
    }

    method ReadTrailersOf(trailersOk: bool)
      requires !dropped
      modifies this
      ensures Now() == Step(old(Now()), ReadTrailers(trailersOk))
    {
      if trailersOk {
        OnEvent(Completed);
        terminal := true;
      } else {
        terminal := true;
        OnEvent(Failed);
      }
    }

    method DropStream()
      requires !dropped
      modifies this
      ensures Now() == Step(old(Now()), Drop)
    {
      if !terminal {
        OnEvent(Cancelled);
      }
      dropped := true;
    }
  }
}
