/**
 * The server control-event loop that blt/src/applications/adder.rs,
 * blt/src/applications/ping_pong.rs and blt/src/application_server.rs each
 * write out: a `tokio::select!` over a shutdown source, the characteristic's
 * control events, and a read that is live only while both a reader and a
 * writer are held. Which ready source fires is the environment's choice, so
 * the loop runs over a script of events; a command handler (`respond`) maps
 * each received command to its response.
 */
module ServeLoop {
  import opened Common

  /** `CharacteristicControlEvent`s, and the end of the control stream. */
  datatype ControlEvent =
    | WriteRequest(mtu: nat, accepted: bool)  // `Write(req)`; `accepted`: `req.accept()` succeeded
    | NotifyRequest                           // `Notify(notifier)`
    | ControlsClosed                          // `characteristic_control.next()` gave `None`

  /** What `reader.read(&mut read_buffer)` completes with: the bytes the peer sent, or an error. */
  datatype ReadResult = Received(data: seq<byte>) | ReadFailed

  /** The branch of the `select!` that fires. */
  datatype Event =
    | ShutdownSignal                                          // Ctrl+C receiver, or stdin: a line, its end or an error
    | Control(control: ControlEvent)
    | ReadCompleted(result: ReadResult, writeSucceeds: bool)  // and whether the response write succeeds

  /** Why the loop ended. `AcceptFailed` is the `?` on `req.accept()`, which returns an error. */
  datatype StopReason = Shutdown | ControlsExhausted | ExitCommand | AcceptFailed

  /** One response written: through which writer (the index of its Notify event), while
      which reader was held, for which command, and whether `write_all` succeeded. */
  datatype Attempt = Attempt(reader: nat, writer: nat, command: string, response: string, delivered: bool)

  /** The loop's variables. The reader and writer are named by the index of the event
      that produced them, so that replacing one by a newer one is visible. */
  datatype LoopState = LoopState(
    reader: Option<nat>,
    writer: Option<nat>,
    bufferLength: nat,
    attempts: seq<Attempt>,
    stopped: Option<StopReason>)

  const INITIAL: LoopState := LoopState(None, None, 0, [], None)

  /** The command that ends the loop after its response has been written. */
  const EXIT: string := "exit"

  /** The received bytes as text, one character per byte. */
  function Decode(bytes: seq<byte>): (s: string)
    ensures |s| == |bytes|
  {
    seq(|bytes|, i requires 0 <= i < |bytes| => bytes[i] as char)
  }

  /** The read branch is live only while both a reader and a writer are held. */
  predicate ReadReady(s: LoopState)
  {
    s.reader.Some? && s.writer.Some?
  }

  /** One iteration of the loop: `event` is the `id`-th branch to fire. */
  function Step(respond: string -> string, s: LoopState, event: Event, id: nat): (r: LoopState)
  {
    match event
    case ShutdownSignal => s.(stopped := Some(Shutdown))
    case Control(WriteRequest(mtu, accepted)) =>
      if accepted then s.(bufferLength := mtu, reader := Some(id))
      else s.(bufferLength := mtu, stopped := Some(AcceptFailed))
    case Control(NotifyRequest) => s.(writer := Some(id))
    case Control(ControlsClosed) => s.(stopped := Some(ControlsExhausted))
    case ReadCompleted(result, writeSucceeds) =>
      if !ReadReady(s) then s
      else match result
        case ReadFailed => s.(reader := None)
        case Received(data) =>
          var n := Min(|data|, s.bufferLength);
          if n == 0 then s.(reader := None)
          else
            var command := Decode(data[..n]);
            var attempt := Attempt(s.reader.value, s.writer.value, command, respond(command), writeSucceeds);
            var s' := s.(attempts := s.attempts + [attempt],
                         writer := if writeSucceeds then s.writer else None);
            if command == EXIT then s'.(stopped := Some(ExitCommand)) else s'
  }

  /** The loop from the `i`-th event on, until it stops or the script ends. */
  function Run(respond: string -> string, events: seq<Event>, i: nat, s: LoopState): LoopState
    requires i <= |events|
    decreases |events| - i
  {
    if i == |events| || s.stopped.Some? then s
    else Run(respond, events, i + 1, Step(respond, s, events[i], i))
  }

  /** The `serve` loop. It returns once a branch ends it; if the script runs out first,
      the loop is still waiting and the result has no stop reason. */
  method Serve(respond: string -> string, events: seq<Event>) returns (final: LoopState)
    ensures final == Run(respond, events, 0, INITIAL)
  {
    var readBuffer: seq<byte> := [];
    var reader: Option<nat> := None;
    var writer: Option<nat> := None;
    var attempts: seq<Attempt> := [];
    var i := 0;
    while i < |events|
      invariant i <= |events|
      invariant Run(respond, events, i, LoopState(reader, writer, |readBuffer|, attempts, None))
                == Run(respond, events, 0, INITIAL)
    {
      match events[i] {
        case ShutdownSignal =>
          return LoopState(reader, writer, |readBuffer|, attempts, Some(Shutdown));
        case Control(WriteRequest(mtu, accepted)) =>
          readBuffer := seq(mtu, _ => 0);
          if !accepted {
            return LoopState(reader, writer, |readBuffer|, attempts, Some(AcceptFailed));
          }
          reader := Some(i);
        case Control(NotifyRequest) =>
          writer := Some(i);
        case Control(ControlsClosed) =>
          return LoopState(reader, writer, |readBuffer|, attempts, Some(ControlsExhausted));
        case ReadCompleted(result, writeSucceeds) =>
          if reader.Some? && writer.Some? {
            match result {
              case ReadFailed =>
                reader := None;
              case Received(data) =>
                var n := Min(|data|, |readBuffer|);
                readBuffer := data[..n] + readBuffer[n..];
                if n == 0 {
                  reader := None;
                } else {
                  assert readBuffer[..n] == data[..n];
                  var command := Decode(readBuffer[..n]);
                  var output := respond(command);
                  attempts := attempts + [Attempt(reader.value, writer.value, command, output, writeSucceeds)];
                  if !writeSucceeds {
                    writer := None;
                  }
                  if command == EXIT {
                    return LoopState(reader, writer, |readBuffer|, attempts, Some(ExitCommand));
                  }
                }
            }
          }
      }
      i := i + 1;
    }
    final := LoopState(reader, writer, |readBuffer|, attempts, None);
  }

  /** How many read completions a script holds. */
  function CountReads(events: seq<Event>): nat
  {
    if events == [] then 0
    else CountReads(events[..|events| - 1]) + (if events[|events| - 1].ReadCompleted? then 1 else 0)
  }

  lemma {:induction false} CountReadsPrefix(events: seq<Event>, i: nat, j: nat)
    requires i <= j <= |events|
    ensures CountReads(events[..i]) <= CountReads(events[..j])
    decreases j - i
  {
    if i < j {
      assert events[..j][..j - 1] == events[..j - 1];
      CountReadsPrefix(events, i, j - 1);
    }
  }

  /** The state after the first `i` events, as far as the script explains it: the reader
      and writer come from an accepted Write event and a Notify event, the buffer is as
      long as the reader's MTU, every response went through a subscribed writer while a
      reader was held and is the handler's answer to a non-empty command, there is at most
      one response per read, and each stop reason has its cause in the script. */
  ghost predicate Explained(respond: string -> string, events: seq<Event>, i: nat, s: LoopState)
    requires i <= |events|
  {
    && (s.reader.Some? ==>
          && s.reader.value < i
          && events[s.reader.value].Control?
          && events[s.reader.value].control.WriteRequest?
          && events[s.reader.value].control.accepted
          && (s.stopped != Some(AcceptFailed) ==> s.bufferLength == events[s.reader.value].control.mtu))
    && (s.writer.Some? ==> s.writer.value < i && events[s.writer.value] == Control(NotifyRequest))
    && (forall a :: a in s.attempts ==> Answered(respond, events, i, a))
    && |s.attempts| <= CountReads(events[..i])
    && (s.stopped == Some(ExitCommand) ==>
          |s.attempts| > 0 && s.attempts[|s.attempts| - 1].command == EXIT)
    && (forall k :: 0 <= k < |s.attempts| && s.attempts[k].command == EXIT ==>
          k == |s.attempts| - 1 && s.stopped == Some(ExitCommand))
    && (s.stopped == Some(Shutdown) ==> ShutdownSignal in events[..i])
    && (s.stopped == Some(ControlsExhausted) ==> Control(ControlsClosed) in events[..i])
    && (s.stopped == Some(AcceptFailed) ==>
          exists k :: 0 <= k < i && events[k].Control? && events[k].control.WriteRequest?
                                && !events[k].control.accepted)
  }

  /** A written response: through a subscribed writer, while an accepted reader was held,
      the handler's answer to a non-empty command. */
  ghost predicate Answered(respond: string -> string, events: seq<Event>, i: nat, a: Attempt)
    requires i <= |events|
  {
    && a.writer < i && events[a.writer] == Control(NotifyRequest)
    && a.reader < i && events[a.reader].Control? && events[a.reader].control.WriteRequest?
    && events[a.reader].control.accepted
    && a.command != [] && a.response == respond(a.command)
  }

  lemma {:induction false} StepExplained(respond: string -> string, events: seq<Event>, i: nat, s: LoopState)
    requires i < |events| && s.stopped.None? && Explained(respond, events, i, s)
    ensures Explained(respond, events, i + 1, Step(respond, s, events[i], i))
  {
    var r := Step(respond, s, events[i], i);
    assert events[..i + 1][..i] == events[..i];
    assert events[..i + 1] == events[..i] + [events[i]];
    assert CountReads(events[..i + 1]) ==
           CountReads(events[..i]) + (if events[i].ReadCompleted? then 1 else 0);
    forall a | a in s.attempts
      ensures Answered(respond, events, i + 1, a)
    {
      assert Answered(respond, events, i, a);
    }
    if r.stopped == Some(AcceptFailed) {
      assert events[i].Control? && events[i].control.WriteRequest? && !events[i].control.accepted;
    }
  }

  lemma {:induction false} RunExplained(respond: string -> string, events: seq<Event>, i: nat, s: LoopState)
    requires i <= |events| && Explained(respond, events, i, s)
    ensures exists j :: i <= j <= |events| && Explained(respond, events, j, Run(respond, events, i, s))
    decreases |events| - i
  {
    if i == |events| || s.stopped.Some? {
      assert Explained(respond, events, i, Run(respond, events, i, s));
    } else {
      var next := Step(respond, s, events[i], i);
      StepExplained(respond, events, i, s);
      RunExplained(respond, events, i + 1, next);
      var j :| i + 1 <= j <= |events| && Explained(respond, events, j, Run(respond, events, i + 1, next));
      assert Run(respond, events, i, s) == Run(respond, events, i + 1, next);
      assert i <= j <= |events| && Explained(respond, events, j, Run(respond, events, i, s));
    }
  }

  /** What every run of the loop guarantees: responses only ever go through a writer
      obtained from a Notify event while a reader from an accepted Write event is held;
      each response is the handler's answer to the non-empty command received; there are
      no more responses than read completions; an "exit" command is the last one answered
      and the loop stops on it, after its response has been written, and a stop on "exit"
      has such a command; and every other stop has its cause in the script. */
  lemma {:induction false} ServeGuarantees(respond: string -> string, events: seq<Event>)
    ensures var f := Run(respond, events, 0, INITIAL);
      && (forall a :: a in f.attempts ==>
            && a.writer < |events| && events[a.writer] == Control(NotifyRequest)
            && a.reader < |events| && events[a.reader].Control?
            && events[a.reader].control.WriteRequest? && events[a.reader].control.accepted
            && |a.command| > 0 && a.response == respond(a.command))
      && |f.attempts| <= CountReads(events)
      && (forall k :: 0 <= k < |f.attempts| && f.attempts[k].command == EXIT ==>
            k == |f.attempts| - 1 && f.stopped == Some(ExitCommand))
      && (f.stopped == Some(ExitCommand) ==>
            && |f.attempts| > 0
            && f.attempts[|f.attempts| - 1].command == EXIT
            && f.attempts[|f.attempts| - 1].response == respond(EXIT))
      && (f.stopped == Some(Shutdown) ==> ShutdownSignal in events)
      && (f.stopped == Some(ControlsExhausted) ==> Control(ControlsClosed) in events)
  {
    assert events[..0] == [];
    RunExplained(respond, events, 0, INITIAL);
    var f := Run(respond, events, 0, INITIAL);
    var j :| 0 <= j <= |events| && Explained(respond, events, j, f);
    CountReadsPrefix(events, j, |events|);
    assert events[..|events|] == events;
    forall a | a in f.attempts
      ensures a.writer < |events| && events[a.writer] == Control(NotifyRequest)
      ensures a.reader < |events| && events[a.reader].Control?
      ensures events[a.reader].control.WriteRequest? && events[a.reader].control.accepted
      ensures |a.command| > 0 && a.response == respond(a.command)
    {
      assert Answered(respond, events, j, a);
    }
    if f.stopped == Some(ExitCommand) {
      assert f.attempts[|f.attempts| - 1] in f.attempts;
      assert Answered(respond, events, j, f.attempts[|f.attempts| - 1]);
    }
    if f.stopped == Some(Shutdown) {
      assert ShutdownSignal in events[..j];
    }
    if f.stopped == Some(ControlsExhausted) {
      assert Control(ControlsClosed) in events[..j];
    }
  }

  /** Local failures never end the loop: a failed read or an empty read drops the reader
      and nothing else; a failed response write drops the writer and nothing else. */
  lemma LocalFailuresKeepServing(respond: string -> string, s: LoopState, result: ReadResult,
                                 writeSucceeds: bool, id: nat)
    requires ReadReady(s) && s.stopped.None?
    ensures result == ReadFailed ==>
              Step(respond, s, ReadCompleted(result, writeSucceeds), id) == s.(reader := None)
    ensures result.Received? && Min(|result.data|, s.bufferLength) == 0 ==>
              Step(respond, s, ReadCompleted(result, writeSucceeds), id) == s.(reader := None)
    ensures result.Received? && Min(|result.data|, s.bufferLength) > 0 && !writeSucceeds
            && Decode(result.data[..Min(|result.data|, s.bufferLength)]) != EXIT ==>
              var r := Step(respond, s, ReadCompleted(result, writeSucceeds), id);
              r.writer.None? && r.reader == s.reader && r.stopped.None? && |r.attempts| == |s.attempts| + 1
  {
  }

  /** A non-empty "exit" read while both handles are held is answered, whether or not the
      response write succeeds, and stops the loop. */
  lemma ExitStops(respond: string -> string, s: LoopState, data: seq<byte>, writeSucceeds: bool, id: nat)
    requires ReadReady(s) && s.stopped.None?
    requires 0 < Min(|data|, s.bufferLength) && Decode(data[..Min(|data|, s.bufferLength)]) == EXIT
    ensures var r := Step(respond, s, ReadCompleted(Received(data), writeSucceeds), id);
            && r.stopped == Some(ExitCommand)
            && r.attempts == s.attempts + [Attempt(s.reader.value, s.writer.value, EXIT, respond(EXIT), writeSucceeds)]
  {
  }

  /** A read completion while the reader or the writer is missing cannot fire, and
      changes nothing. */
  lemma NoReadWithoutBoth(respond: string -> string, s: LoopState, result: ReadResult,
                          writeSucceeds: bool, id: nat)
    requires !ReadReady(s)
    ensures Step(respond, s, ReadCompleted(result, writeSucceeds), id) == s
  {
  }

  /** Control events replace the reader (resizing the read buffer to the MTU) or the
      writer, leaving the other alone; the end of the control stream stops the loop. */
  lemma ControlEventsReplace(respond: string -> string, s: LoopState, mtu: nat, id: nat)
    ensures Step(respond, s, Control(WriteRequest(mtu, true)), id)
            == s.(reader := Some(id), bufferLength := mtu)
    ensures Step(respond, s, Control(NotifyRequest), id) == s.(writer := Some(id))
    ensures Step(respond, s, Control(ControlsClosed), id).stopped == Some(ControlsExhausted)
    ensures Step(respond, s, ShutdownSignal, id).stopped == Some(Shutdown)
  {
  }
}
