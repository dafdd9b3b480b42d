/**
 * The generic GATT server of blt/src/application_server.rs: it registers a GATT
 * application, runs its own copy of the control-event loop with a fixed
 * command mapping until stdin yields a line, reaches its end or fails to read,
 * and removes the service and its advertisement on teardown.
 */
module AppServer {
  import opened Common
  import opened ServeLoop

  /** The server's response to a command. */
  function Respond(command: string): (r: string)
    ensures r == "pong" <==> command == "ping"
    ensures r == "bye!" <==> command == EXIT
    ensures r == "" <==> command != "ping" && command != EXIT
  {
    match command
    case "ping" => "pong"
    case "exit" => "bye!"
    case _ => ""
  }

  /** The server's loop: an "exit" command is answered with "bye!" and ends the loop, so
      it is the last command answered; a stop for shutdown means stdin yielded a line, its end or a read error;
      every response is "pong", "bye!" or empty, as the command asks. */
  lemma ServerLoop(events: seq<Event>)
    ensures var f := Run(Respond, events, 0, INITIAL);
      && (forall k :: 0 <= k < |f.attempts| && f.attempts[k].command == EXIT ==>
            k == |f.attempts| - 1 && f.stopped == Some(ExitCommand))
      && (f.stopped == Some(ExitCommand) ==>
            |f.attempts| > 0 && f.attempts[|f.attempts| - 1].response == "bye!")
      && (f.stopped == Some(Shutdown) ==> ShutdownSignal in events)
      && (f.stopped == Some(ControlsExhausted) ==> Control(ControlsClosed) in events)
      && (forall a :: a in f.attempts ==>
            && (a.command == "ping" ==> a.response == "pong")
            && (a.command == EXIT ==> a.response == "bye!")
            && (a.command != "ping" && a.command != EXIT ==> a.response == ""))
  {
    ServeGuarantees(Respond, events);
  }

  /** A registered GATT application (`ApplicationConfiguration`): its service name and
      how many characteristic controls are still unclaimed. The application and
      advertisement handles it owns are what releasing it gives back. */
  datatype Configuration = Configuration(serviceName: string, controls: nat)

  /** How `start` ended. */
  datatype StartOutcome =
    | AdapterFailed              // `ApplicationServer::new` or the adapter address failed
    | InitFailed                 // `gatt_application.init` failed inside `serve`
    | ControlMissing             // the `unwrap` of `pop_characteristic_control` panics
    | AcceptError(loop: LoopState)  // `req.accept()?` returned an error from the loop
    | Finished(loop: LoopState)  // the loop ended, then `teardown` ran

  class ApplicationServer {
    var configuration: Option<Configuration>
    /** The configurations whose handles `stop` released, in order. */
    var released: seq<Configuration>
    /** How many one-second pauses `stop` took. */
    var pauses: nat

    /** `ApplicationServer::new`, once the adapter manager exists. */
    constructor()
      ensures configuration == None && released == [] && pauses == 0
    {
      configuration := None;
      released := [];
      pauses := 0;
    }

    /** `serve`: registering the application (`init`, given as its outcome) stores the
        configuration; a failed registration returns the error and changes nothing. */
    method Serve(init: Option<Configuration>) returns (ok: bool)
      modifies this
      ensures ok <==> init.Some?
      ensures configuration == if init.Some? then init else old(configuration)
      ensures released == old(released) && pauses == old(pauses)
    {
      if init.None? {
        return false;
      }
      configuration := init;
      ok := true;
    }

    /** `Option::take` on the configuration field. */
    method TakeConfiguration() returns (taken: Option<Configuration>)
      modifies this
      ensures taken == old(configuration) && configuration == None
      ensures released == old(released) && pauses == old(pauses)
    {
      taken := configuration;
      configuration := None;
    }

    /** `stop`: takes the configuration; if there was one, releases its handles and pauses.
        Afterwards there is none, so a second `stop` changes nothing. */
    method Stop()
      modifies this
      ensures configuration == None
      ensures old(configuration).Some? ==>
                released == old(released) + [old(configuration).value] && pauses == old(pauses) + 1
      ensures old(configuration).None? ==> released == old(released) && pauses == old(pauses)
    {
      var taken := TakeConfiguration();
      if taken.Some? {
        released := released + [taken.value];
        pauses := pauses + 1;
      }
    }

    /** `teardown`. */
    method Teardown()
      modifies this
      ensures configuration == None
      ensures old(configuration).Some? ==>
                released == old(released) + [old(configuration).value] && pauses == old(pauses) + 1
      ensures old(configuration).None? ==> released == old(released) && pauses == old(pauses)
    {
      Stop();
    }

    /** `start`, with the adapter's readiness, the outcome of registering the application
        and the loop's events as inputs. The configuration is taken out of the field
        before the loop, so the `teardown` that follows the loop finds none: it releases
        nothing and does not pause, whatever happened. */
    static method Start(adapterReady: bool, init: Option<Configuration>, events: seq<Event>)
      returns (outcome: StartOutcome, server: ApplicationServer?)
      ensures !adapterReady <==> server == null
      ensures !adapterReady ==> outcome == AdapterFailed
      ensures adapterReady && init.None? ==> outcome == InitFailed
      ensures adapterReady && init.Some? && init.value.controls == 0 ==> outcome == ControlMissing
      ensures adapterReady && init.Some? && init.value.controls > 0 ==>
                var f := Run(Respond, events, 0, INITIAL);
                outcome == (if f.stopped == Some(AcceptFailed) then AcceptError(f) else Finished(f))
      ensures server != null ==>
                server.configuration == None && server.released == [] && server.pauses == 0
    {
      if !adapterReady {
        return AdapterFailed, null;
      }
      server := new ApplicationServer();
      var ok := server.Serve(init);
      if !ok {
        return InitFailed, server;
      }
      var taken := server.TakeConfiguration();
      // `serve` succeeded, so the `if let Some(..)` on the taken value always matches.
      assert taken.Some?;
      var configuration := taken.value;
      if configuration.controls == 0 {
        return ControlMissing, server;
      }
      configuration := configuration.(controls := configuration.controls - 1);
      var final := ServeLoop.Serve(Respond, events);
      if final.stopped == Some(AcceptFailed) {
        return AcceptError(final), server;
      }
      server.Teardown();
      outcome := Finished(final);
    }
  }
}
