/**
 * The ping-pong application of blt/src/applications/ping_pong.rs: the server's
 * command mapping (run by the shared control-event loop) and the client's
 * fixed sequence of commands.
 */
module PingPong {
  import opened Common
  import opened ServeLoop
  import Descriptor

  /** The server's response to a command. */
  function Respond(command: string): (r: string)
    ensures r != []
    ensures r == "pong" <==> command == "ping"
    ensures r == "ping" <==> command == "pong"
    ensures r == "stopping emulator" <==> command == EXIT
    ensures r == "unknown command" <==> command != "ping" && command != "pong" && command != EXIT
  {
    match command
    case "ping" => "pong"
    case "pong" => "ping"
    case "exit" => "stopping emulator"
    case _ => "unknown command"
  }

  /** The ping-pong `serve`: every response is non-empty and is the mapping's answer; an
      "exit" command is answered with "stopping emulator" and ends the loop, so it is the
      last command answered. */
  lemma PingPongServe(events: seq<Event>)
    ensures var f := Run(Respond, events, 0, INITIAL);
      && (forall a :: a in f.attempts ==> a.response != [] && a.response == Respond(a.command))
      && (forall k :: 0 <= k < |f.attempts| && f.attempts[k].command == EXIT ==>
            && f.attempts[k].response == "stopping emulator"
            && k == |f.attempts| - 1 && f.stopped == Some(ExitCommand))
  {
    ServeGuarantees(Respond, events);
  }

  /** The commands the client sends on each characteristic, in order. */
  const MESSAGES: seq<string> := ["ping", "pong", "random", "exit"]

  /** The client's calls: obtaining the write and notify IO of a characteristic (which
      also flushes stale notifications), writing a command, reading one notification. */
  datatype ClientCall =
    | OpenIo(uuid: Descriptor.Uuid)
    | WriteCommand(uuid: Descriptor.Uuid, message: string)
    | ReadNotification(uuid: Descriptor.Uuid)

  /** The calls for one characteristic's commands: each written, then one notification read. */
  function Exchanges(uuid: Descriptor.Uuid, messages: seq<string>): seq<ClientCall>
  {
    if messages == [] then []
    else Exchanges(uuid, messages[..|messages| - 1])
         + [WriteCommand(uuid, messages[|messages| - 1]), ReadNotification(uuid)]
  }

  /** The calls for a sequence of characteristics: per characteristic, its IO is opened
      and then the four commands are exchanged. */
  function Sessions(keys: seq<Descriptor.Uuid>): seq<ClientCall>
  {
    if keys == [] then []
    else Sessions(keys[..|keys| - 1]) + [OpenIo(keys[|keys| - 1])] + Exchanges(keys[|keys| - 1], MESSAGES)
  }

  lemma {:induction false} ExchangesAt(uuid: Descriptor.Uuid, messages: seq<string>, j: nat)
    requires j < |messages|
    ensures |Exchanges(uuid, messages)| == 2 * |messages|
    ensures Exchanges(uuid, messages)[2 * j] == WriteCommand(uuid, messages[j])
    ensures Exchanges(uuid, messages)[2 * j + 1] == ReadNotification(uuid)
    decreases |messages|
  {
    var init := messages[..|messages| - 1];
    if j < |messages| - 1 {
      ExchangesAt(uuid, init, j);
    } else if init != [] {
      ExchangesAt(uuid, init, 0);
    }
  }

  /** The message order: on the k-th characteristic the client opens the IO, then writes
      "ping", "pong", "random" and "exit", reading one notification after each write. */
  lemma {:induction false} SessionsAt(keys: seq<Descriptor.Uuid>, k: nat, j: nat)
    requires k < |keys| && j < 4
    ensures |Sessions(keys)| == 9 * |keys|
    ensures Sessions(keys)[9 * k] == OpenIo(keys[k])
    ensures Sessions(keys)[9 * k + 1 + 2 * j] == WriteCommand(keys[k], MESSAGES[j])
    ensures Sessions(keys)[9 * k + 2 + 2 * j] == ReadNotification(keys[k])
    decreases |keys|
  {
    var init := keys[..|keys| - 1];
    var last := keys[|keys| - 1];
    ExchangesAt(last, MESSAGES, j);
    if k < |keys| - 1 {
      SessionsAt(init, k, j);
    } else if init != [] {
      SessionsAt(init, 0, j);
    } else {
      assert Sessions(keys) == [OpenIo(last)] + Exchanges(last, MESSAGES);
    }
  }

  /** The client's `exercise_characteristics`, over the keys of the characteristic map
      in the order the map yields them. */
  method ExerciseCharacteristics(keys: seq<Descriptor.Uuid>) returns (calls: seq<ClientCall>)
    ensures calls == Sessions(keys)
  {
    calls := [];
    for k := 0 to |keys|
      invariant calls == Sessions(keys[..k])
    {
      assert keys[..k + 1][..k] == keys[..k];
      var before := calls;
      calls := calls + [OpenIo(keys[k])];
      for j := 0 to |MESSAGES|
        invariant calls == before + [OpenIo(keys[k])] + Exchanges(keys[k], MESSAGES[..j])
      {
        assert MESSAGES[..j + 1][..j] == MESSAGES[..j];
        calls := calls + [WriteCommand(keys[k], MESSAGES[j]), ReadNotification(keys[k])];
      }
      assert MESSAGES[..|MESSAGES|] == MESSAGES;
    }
    assert keys[..|keys|] == keys;
  }

  /** The ASCII bytes of a command. */
  function Bytes(s: string): (b: seq<byte>)
    requires forall i :: 0 <= i < |s| ==> s[i] as int < 256
    ensures Decode(b) == s
  {
    seq(|s|, i requires 0 <= i < |s| => s[i] as int)
  }

  /** The server side of one client session: the client subscribes (a write request with
      the given MTU, then notifications) and sends its four commands, each delivered. */
  function ClientSession(mtu: nat): seq<Event>
  {
    [Control(WriteRequest(mtu, true)), Control(NotifyRequest),
     ReadCompleted(Received(Bytes("ping")), true),
     ReadCompleted(Received(Bytes("pong")), true),
     ReadCompleted(Received(Bytes("random")), true),
     ReadCompleted(Received(Bytes("exit")), true)]
  }

  /** With an MTU that fits every command, the server answers the client's commands
      with "pong", "ping", "unknown command" and "stopping emulator", in that order,
      and stops on the last. */
  lemma {:induction false} ServerAnswersClient(mtu: nat)
    requires mtu >= 6
    ensures var f := Run(Respond, ClientSession(mtu), 0, INITIAL);
            && f.stopped == Some(ExitCommand)
            && |f.attempts| == 4
            && f.attempts[0].response == "pong" && f.attempts[1].response == "ping"
            && f.attempts[2].response == "unknown command"
            && f.attempts[3].response == "stopping emulator"
  {
    var es := ClientSession(mtu);
    var s0 := INITIAL;
    var s1 := Step(Respond, s0, es[0], 0);
    var s2 := Step(Respond, s1, es[1], 1);
    assert s2 == LoopState(Some(0), Some(1), mtu, [], None);
    var b := Bytes("ping");
    assert b[..Min(|b|, mtu)] == b;
    var s3 := Step(Respond, s2, es[2], 2);
    assert s3.attempts == [Attempt(0, 1, "ping", "pong", true)] && s3.stopped.None?;
    b := Bytes("pong");
    assert b[..Min(|b|, mtu)] == b;
    var s4 := Step(Respond, s3, es[3], 3);
    assert s4.attempts[1] == Attempt(0, 1, "pong", "ping", true) && s4.stopped.None?;
    b := Bytes("random");
    assert b[..Min(|b|, mtu)] == b;
    var s5 := Step(Respond, s4, es[4], 4);
    assert "random" != EXIT;
    assert s5.attempts[2].response == "unknown command" && s5.stopped.None?;
    b := Bytes("exit");
    assert b[..Min(|b|, mtu)] == b;
    var s6 := Step(Respond, s5, es[5], 5);
    assert s6.stopped == Some(ExitCommand) && |s6.attempts| == 4;
    assert Run(Respond, es, 6, s6) == s6;
    assert Run(Respond, es, 5, s5) == s6;
    assert Run(Respond, es, 4, s4) == Run(Respond, es, 5, s5);
    assert Run(Respond, es, 3, s3) == Run(Respond, es, 4, s4);
    assert Run(Respond, es, 2, s2) == Run(Respond, es, 3, s3);
    assert Run(Respond, es, 1, s1) == Run(Respond, es, 2, s2);
    assert Run(Respond, es, 0, s0) == Run(Respond, es, 1, s1);
  }
}
