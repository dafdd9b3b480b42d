# phonendo_reader BLE applications, modelled in Dafny

This project models the Bluetooth Low Energy layer of phonendo_reader (`blt/src`). The layer has two sides:

- The **client** walks the adapter's device events. For each added device it:
  - pairs the device if needed, retrying;
  - connects if the device advertises the application's service, retrying;
  - checks that service's characteristics against the application's descriptor.

  It stops at the first device that matches completely, then exercises that device's characteristics.
- The **server** registers a GATT application. It then runs a control-event loop: a write request gives it a reader, a notify subscription gives it a writer, and every command read is answered through the writer.

Several pieces sit around these two sides:

- **Applications**:
  - ping-pong;
  - the adder, which sums space-separated `i32` values;
  - the Current Time Service client, with its 9-byte codec and its resynchronisation rule;
  - the heart-rate decoder.
- **The application descriptor**, with its conversion into a GATT application.
- **The factory**, which picks the mode and the application from the environment.

Modules:

| module | file | models |
|---|---|---|
| `Common` | common.dfy | `Option`, `Result`, bytes |
| `Descriptor` | descriptor.dfy | blt/src/application_descriptor.rs |
| `ServeLoop` | serve_loop.dfy | the control-event loop that adder.rs, ping_pong.rs and application_server.rs each write out |
| `PingPong` | ping_pong.dfy | blt/src/applications/ping_pong.rs |
| `Adder` | adder.dfy | blt/src/applications/adder.rs |
| `AppServer` | app_server.dfy | blt/src/application_server.rs |
| `Client` | client.dfy | blt/src/application_client.rs |
| `Cts` | cts.dfy | blt/src/applications/cts.rs |
| `HeartRate` | heart_rate.dfy | blt/src/applications/heart_rate.rs |
| `Factory` | factory.dfy | blt/src/applications/application_factory.rs |

How the environment enters the model:

- **The Bluetooth stack is an input.**
  - A device is a record that scripts every answer it gives: its paired and connected state, the outcome of each `pair()` and `connect()` attempt, its advertised UUIDs, its services and their characteristics.
  - Each query can also fail, which models the `?` that propagates the error.
  - The client records the stack calls it makes (pair, connect, disconnect, remove) in its `calls` field.
- **The event sources are scripts.** The adapter's event stream and the branch that each `tokio::select!` iteration takes are finite sequences of events.
- **Clock and randomness are parameters.** `Utc::now()` and the `rand` draws are passed in.

The server loop is written once, as `ServeLoop.Step`/`ServeLoop.Run`, and proved against the imperative `ServeLoop.Serve`. Its guarantees are then stated once for every command handler. The three applications instantiate it with their own mappings.

Three behaviours of the code are worth stating up front:

- **Retry bounds.** `device_pair` retries 5 times and `device_connect` 2 times after a first attempt, so a device gets up to 6 pairing attempts and up to 3 connection attempts.
- **CTS years.** The decoder goes through chrono's `%Y`, which reads at most four digits without a sign, so only years 0..9999 decode, although the encoding carries 16 bits of year.
- **Server teardown.** `ApplicationServer::start` takes the configuration out of its field at line 28, before the loop. Its final `teardown` therefore finds nothing to release and does not pause.

## Model

| member | source | states |
|---|---|---|
| Descriptor.New | blt/src/application_descriptor.rs:18-46 | the getters give back exactly the service UUID, name and UUID list passed in, and the function vectors are stored unchanged |
| Descriptor.DefaultReade | blt/src/application_descriptor.rs:48-50 | no read configuration |
| Descriptor.DefaultWrite | blt/src/application_descriptor.rs:52-58 | write without response enabled, plain write not, delivered through IO |
| Descriptor.DefaultNotify | blt/src/application_descriptor.rs:60-66 | notifications enabled, delivered through IO |
| Descriptor.DefaultDescriptor | blt/src/application_descriptor.rs:68-91 | read, write and notify vectors as long as the UUID list, every entry `None`; service UUID, name and UUIDs kept |
| Descriptor.FromDescriptor | blt/src/application_descriptor.rs:94-131 | one primary service with the descriptor's UUID; characteristic i has UUID i and control handle i, and takes its read/write/notify entries from index n-1-i; the n controls are passed on in creation order; each function vector loses exactly its last n entries; needs n entries in each vector |
| ServeLoop.Decode | blt/src/applications/ping_pong.rs:77-78 | the received bytes become a command of the same length |
| ServeLoop.Serve | blt/src/applications/ping_pong.rs:42-103 | the imperative loop ends in exactly the state that the step function's fold `Run` gives over the event script |
| ServeLoop.StepExplained | blt/src/applications/ping_pong.rs:51-103 | one iteration preserves the loop invariant: the reader comes from an accepted write request, the writer from a notify event, the buffer length is the reader's MTU, each response answers a non-empty command through held handles, there are no more responses than reads, and each stop has its cause in the script |
| ServeLoop.RunExplained | blt/src/applications/ping_pong.rs:51-103 | the invariant holds after any number of iterations |
| ServeLoop.ServeGuarantees | blt/src/applications/ping_pong.rs:51-103 | every response went through a writer from a Notify event while a reader from an accepted Write event was held; it is the handler's answer to a non-empty command; there are at most as many responses as reads; an "exit" command is always the last one answered and stops the loop, and "exit" stops the loop only after its response was written; shutdown and the end of the control stream stop it only when they occur |
| ServeLoop.ExitStops | blt/src/applications/ping_pong.rs:86-92 | a non-empty "exit" read while both handles are held is answered, whether or not the write succeeds, and stops the loop |
| ServeLoop.LocalFailuresKeepServing | blt/src/applications/ping_pong.rs:72-99 | a read error or a zero-length read drops only the reader; a failed response write drops only the writer; none of these ends the loop |
| ServeLoop.NoReadWithoutBoth | blt/src/applications/ping_pong.rs:66-70 | without both a reader and a writer no read completes, and nothing changes |
| ServeLoop.ControlEventsReplace | blt/src/applications/ping_pong.rs:53-64 | a write request replaces the reader and resizes the buffer to its MTU; a notify subscription replaces the writer; the end of the control stream and the shutdown signal stop the loop |
| PingPong.Respond | blt/src/applications/ping_pong.rs:79-84 | "ping"↔"pong" swap, "exit" gets "stopping emulator", everything else "unknown command" (each an if-and-only-if); never empty |
| PingPong.ExchangesAt | blt/src/applications/ping_pong.rs:116-131 | for each message in turn: a write of it, then one notification read |
| PingPong.SessionsAt | blt/src/applications/ping_pong.rs:112-132 | on the k-th characteristic: the IO is opened, then "ping", "pong", "random", "exit" are written in order, each followed by one read; nine calls per characteristic |
| PingPong.ExerciseCharacteristics | blt/src/applications/ping_pong.rs:108-135 | the nested loops make exactly the call sequence `Sessions(keys)` |
| PingPong.PingPongServe | blt/src/applications/ping_pong.rs:51-103 | every response is the mapping's non-empty answer; an "exit" command is answered "stopping emulator", is the last command answered and ends the loop |
| PingPong.ServerAnswersClient | blt/src/applications/ping_pong.rs:51-103 | a client that subscribes and sends its four commands gets "pong", "ping", "unknown command", "stopping emulator", and the server stops on "exit" |
| Adder.Wrap | blt/src/applications/adder.rs:142 | the result is in the `i32` range, and values already in range are unchanged |
| Adder.WrappingAdd | blt/src/applications/adder.rs:142 | `result += n` stays in the `i32` range |
| Adder.WrappingAddIsWrap | blt/src/applications/adder.rs:142 | the step-by-step wrapping addition is the sum reduced modulo 2^32 into the `i32` range |
| Adder.WrapAdd | blt/src/applications/adder.rs:138-142 | wrapping after each addition equals wrapping once at the end |
| Adder.ParseI32 | blt/src/applications/adder.rs:141 | a parsed value is in the `i32` range; the empty piece does not parse |
| Adder.NatToString | blt/src/applications/adder.rs:148 | non-empty, all digits, no leading zero |
| Adder.I32ToString | blt/src/applications/adder.rs:148 | non-empty, starts with '-' or a digit |
| Adder.DigitsValueOfNatToString | blt/src/applications/adder.rs:148 | the decimal digits printed denote the number |
| Adder.ParseOfToString | blt/src/applications/adder.rs:141-148 | printing an `i32` and parsing it back gives the same value |
| Adder.Split | blt/src/applications/adder.rs:140 | splitting always yields at least one piece |
| Adder.JoinSplit | blt/src/applications/adder.rs:140 | joining the pieces of `split(' ')` with single spaces gives back the input |
| Adder.SplitJoin | blt/src/applications/adder.rs:140 | splitting pieces free of spaces, joined by single spaces, gives back the pieces |
| Adder.FirstInvalid | blt/src/applications/adder.rs:140-146 | the index of the first piece that does not parse, with every earlier piece parsing; none exactly when every piece parses |
| Adder.WrappedTotal | blt/src/applications/adder.rs:138-142 | the accumulator stays in the `i32` range |
| Adder.WrappedTotalIsWrapOfTotal | blt/src/applications/adder.rs:138-148 | the accumulator is the exact total reduced modulo 2^32 into the `i32` range |
| Adder.Sum | blt/src/applications/adder.rs:137-149 | the loop with its early return answers exactly `SumResult`: the error for the first bad piece, else the decimal of the total |
| Adder.SumResultInvalid | blt/src/applications/adder.rs:143-145 | the first piece that does not parse is reported as `Invalid number '<piece>'`, whatever follows it |
| Adder.SumOfValidPieces | blt/src/applications/adder.rs:137-149 | when every piece parses, the answer is the decimal of the wrapped total, and it parses back to that total |
| Adder.SplitConcat | blt/src/applications/adder.rs:140 | splitting at a space splits each side separately, so the pieces of the whole are the pieces of the left side followed by those of the right |
| Adder.EmptyPieceIsInvalid | blt/src/applications/adder.rs:140-145 | the empty input, a leading space, and a double space after pieces that all parse each yield the empty piece, reported as `Invalid number ''` |
| Adder.AdderRespondExit | blt/src/applications/adder.rs:79-82 | "stopping emulator" answers "exit" and nothing else; every other command goes to `sum` |
| Adder.AdderServe | blt/src/applications/adder.rs:51-101 | an "exit" command is answered "stopping emulator", is the last command answered and ends the loop; the loop ends on "exit" only after that answer; every other response is `sum`'s answer |
| Adder.GenerateRandomEntries | blt/src/applications/adder.rs:151-167 | 1 to 9 entries of 1 to 4 values in 0..=10, each joined by single spaces, then "1 a", then "exit" |
| Adder.GeneratedEntriesAnswered | blt/src/applications/adder.rs:151-167 | each generated entry is answered with the decimal of its sum, "1 a" with `Invalid number 'a'`, and "exit" with "stopping emulator" |
| Adder.EntryAnswered | blt/src/applications/adder.rs:156-160 | one entry of small values is answered with the decimal of their sum |
| Adder.OneAIsInvalid | blt/src/applications/adder.rs:163 | the invalid entry "1 a" is answered `Invalid number 'a'` |
| AppServer.Respond | blt/src/application_server.rs:71-75 | "ping" gets "pong", "exit" gets "bye!", everything else the empty string (each an if-and-only-if) |
| AppServer.ServerLoop | blt/src/application_server.rs:43-94 | an "exit" command is answered "bye!", is the last command answered and ends the loop; the loop ends on "exit" only after that answer; a shutdown stop means stdin yielded a line, reached its end or failed to read; responses follow the mapping |
| AppServer.ApplicationServer.constructor | blt/src/application_server.rs:102-107 | no configuration, nothing released, no pause |
| AppServer.ApplicationServer.Serve | blt/src/application_server.rs:109-112 | success exactly when registration succeeds, and then the configuration is stored; on failure nothing changes |
| AppServer.ApplicationServer.TakeConfiguration | blt/src/application_server.rs:120 | returns the configuration and leaves none |
| AppServer.ApplicationServer.Stop | blt/src/application_server.rs:119-124 | afterwards there is no configuration; one present before is released and followed by one pause; with none, nothing happens, so a second stop is a no-op |
| AppServer.ApplicationServer.Teardown | blt/src/application_server.rs:114-117 | the same state change as `Stop` |
| AppServer.ApplicationServer.Start | blt/src/application_server.rs:17-100 | adapter failure, registration failure, a missing control, an accept error, or a finished loop whose result is what `ServeLoop.Run` gives; the server it leaves released nothing and never paused |
| Client.RetryFrom | blt/src/application_client.rs:150-160 | succeeds exactly when one of the allowed attempts succeeds; stops at the first success; fails only after `retries + 1` attempts |
| Client.FirstService | blt/src/application_client.rs:116-120 | the first service whose UUID matches, with every earlier UUID read and different; an error at the first unreadable UUID before any match |
| Client.FirstBad | blt/src/application_client.rs:194-206 | the first characteristic whose UUID is unreadable or unknown, with every earlier one acceptable |
| Client.Collected | blt/src/application_client.rs:194-201 | the map's keys are exactly the UUIDs read |
| Client.FirstBadCharacteristicDecides | blt/src/application_client.rs:194-206 | the first unknown UUID rejects the service whatever matched before it; an unreadable one is an error |
| Client.AllAcceptableDecides | blt/src/application_client.rs:209-216 | when every UUID is known, the service matches exactly when the map has as many keys as the descriptor lists UUIDs |
| Client.MatchIffComplete | blt/src/application_client.rs:189-217 | a match if and only if every UUID is read and known and the distinct count equals the descriptor's length; every key returned is a descriptor UUID; with a duplicate-free descriptor the keys are exactly its UUIDs |
| Client.ElemsCard | blt/src/application_client.rs:209 | the distinct UUIDs of a list number at most its length, equal to it exactly when there are no duplicates |
| Client.DuplicatesNeverMatch | blt/src/application_client.rs:209-214 | a descriptor that lists a UUID twice never matches |
| Client.HandleDeviceOutcome | blt/src/application_client.rs:64-89 | handling a device matches, aborts or goes on as the device's outcome says, and changes the stored service only on a match |
| Client.DiscoverStopsAtFirstMatch | blt/src/application_client.rs:52-70 | the discovery stops at the first device that matches, with nothing decisive before it, storing exactly its service and map |
| Client.DiscoverMatchedHasCause | blt/src/application_client.rs:52-98 | a discovery that ends matched was ended by a matching device with nothing decisive before it; otherwise the service and map are unchanged |
| Client.MatchedDeviceStaysConnected | blt/src/application_client.rs:64-70 | the matching device is neither removed nor disconnected: its only calls are pair and connect |
| Client.SearchCallsPairOrConnect | blt/src/application_client.rs:105-130 | a search that finds the service made only pair and connect calls |
| Client.FailedDeviceRemoved | blt/src/application_client.rs:72-89 | a device whose search fails is removed, then disconnected if still connected; the discovery continues unless the connection check fails |
| Client.UnmatchedDeviceDisconnected | blt/src/application_client.rs:64-89 | a device that neither matches nor fails is not removed; it is disconnected exactly when still connected, and the discovery stops only when the connection check fails |
| Client.OtherEventsChangeNothing | blt/src/application_client.rs:92-94 | a removed device, or any event other than an added device, leaves the discovery unchanged |
| Client.PairingOnlyWhenNeeded | blt/src/application_client.rs:132-166 | `pair()` only for a listed alias whose device is not paired, at most 6 times, stopping at the first success; preparation fails only when the paired state cannot be read or all 6 attempts fail |
| Client.ConnectRetries | blt/src/application_client.rs:168-187 | `connect()` only when not connected, at most 3 times, stopping at the first success; fails only when the state cannot be read or all 3 attempts fail |
| Client.ServiceSearchConnectsOnlyIfAdvertised | blt/src/application_client.rs:105-130 | connects only after a successful preparation when the service UUID is advertised; returns the first service with that UUID; otherwise disconnects and finds nothing |
| Client.ApplicationClient.constructor | blt/src/application_client.rs:38-46 | no service, an empty map, no calls |
| Client.ApplicationClient.Retry | blt/src/application_client.rs:150-160 | the retry loop's outcome and calls are those of `RetryFrom` |
| Client.ApplicationClient.DevicePair | blt/src/application_client.rs:147-166 | outcome and calls as `PairSpec` |
| Client.ApplicationClient.DeviceConnect | blt/src/application_client.rs:168-187 | outcome and calls as `ConnectSpec` |
| Client.ApplicationClient.DevicePrepareForDiscovering | blt/src/application_client.rs:132-145 | outcome and calls as `PrepareSpec` |
| Client.ApplicationClient.FindApplicationService | blt/src/application_client.rs:105-130 | result and calls as `FindServiceSpec` |
| Client.ApplicationClient.FindCharacteristics | blt/src/application_client.rs:189-217 | the map filled and cleared in the loop gives exactly `CharacteristicsVerdict` |
| Client.ApplicationClient.DiscoverService | blt/src/application_client.rs:48-103 | fields and calls end as the recursive definition `Discover` says; an error exactly when it aborts |
| Client.ApplicationClient.ExerciseCharacteristics | blt/src/application_client.rs:219-227 | the map is handed on exactly when a service was found |
| Cts.DaysFromMonday | blt/src/applications/cts.rs:124 | the weekday number is in 0..6 |
| Cts.DateTimeToVector | blt/src/applications/cts.rs:115-127 | 9 bytes: the year modulo 2^16 little-endian, then month, day, hour, minute, second, the weekday 1..7 from Monday, and 0 |
| Cts.VectorToNaiveDateTime | blt/src/applications/cts.rs:129-143 | a decoded value is a valid date-time of a year in 0..9999 |
| Cts.DecodeIgnoresTail | blt/src/applications/cts.rs:129-136 | only the first seven bytes are read |
| Cts.DecodeFailsOnInvalid | blt/src/applications/cts.rs:137-142 | decoding fails exactly when the fields form no valid date-time or the year has five digits |
| Cts.RoundTrip | blt/src/applications/cts.rs:115-143 | decoding the encoding gives back the date-time |
| Cts.EncodeOfDecode | blt/src/applications/cts.rs:115-143 | a 9-byte value that decodes, with the right weekday and fractions 0, is the encoding of what it decodes to |
| Cts.ExerciseCharacteristics | blt/src/applications/cts.rs:71-113 | no call and a panic when the characteristic is missing; otherwise one read, then a write of the local time exactly when the read value decodes and is more than ten minutes off, and a re-read exactly when that write succeeds; a panic exactly when a read value does not decode; an error returned exactly when a read or the write fails |
| Cts.SkewOfTenMinutesIsKept | blt/src/applications/cts.rs:83-84 | a skew of exactly 600 s, the peripheral ahead or behind, causes no write and the exercise completes |
| Cts.CorrectionConverges | blt/src/applications/cts.rs:83-96 | the corrective write makes the re-read decode to the local time and the exercise complete, and a second exercise then writes nothing |
| HeartRate.VectorToHeartRate | blt/src/applications/heart_rate.rs:78-80 | a u16 whose high byte is the first byte and low byte the second, so it never overflows |
| HeartRate.DecodeReadsTwoBytes | blt/src/applications/heart_rate.rs:79 | only the first two bytes matter |
| HeartRate.DecodeInjective | blt/src/applications/heart_rate.rs:79 | distinct leading byte pairs decode to distinct values |
| HeartRate.RoundTrip | blt/src/applications/heart_rate.rs:78-80 | the decoding and the big-endian encoding are inverse on u16 values and two-byte vectors |
| HeartRate.ApplicationDescriptorOf | blt/src/applications/heart_rate.rs:24-36 | one characteristic, no read configuration, writing disabled, notifications from `default_notify` |
| Factory.ToLower | blt/src/applications/application_factory.rs:24 | same length, each character lowercased |
| Factory.ModeFromStr | blt/src/applications/application_factory.rs:23-33 | `Client` exactly when the lowercased input is "client", `Server` exactly for "server", an error otherwise |
| Factory.ModeIsCaseInsensitive | blt/src/applications/application_factory.rs:24-25 | an input and its lowercase select the same mode |
| Factory.ModeExampleClient | blt/src/applications/application_factory.rs:26 | "Client" selects the client mode |
| Factory.ModeExampleServer | blt/src/applications/application_factory.rs:27 | "SERVER" selects the server mode |
| Factory.ModeExamplesRejected | blt/src/applications/application_factory.rs:28-31 | "clients" and "" are errors |
| Factory.GetBltApplication | blt/src/applications/application_factory.rs:79-90 | "ping_pong", "adder", "cts" in any case select their applications (each an if-and-only-if); heart-rate is never selected |
| Factory.ApplicationIsCaseInsensitive | blt/src/applications/application_factory.rs:80-81 | a name and its lowercase select the same application |
| Factory.DiscoverMode | blt/src/applications/application_factory.rs:52-60 | a mode exactly when APP_MODE is set and names one, and then that mode |
| Factory.DiscoverApplication | blt/src/applications/application_factory.rs:62-68 | an application exactly when APP is set and names one, and then that application |
| Factory.LaunchApplication | blt/src/applications/application_factory.rs:39-50 | nothing starts unless both the application and the mode resolve; otherwise the client or the server starts, as the mode says, with that application |

## Left out

- The `bluer` stack itself is not modelled: adapter power-on, discovery streams, `pair`/`connect`/`disconnect`/`remove_device`, `serve_gatt_application` and advertising. Their answers are scripted inputs, and the calls that change state are recorded in order, but their effect on the stack is not.
- `adapter.device(address)?` and the `unwrap`s of a device's name and alias (application_client.rs:55-61) are not modelled: every added device reaches the search.
- blt/src/blt_application.rs is not part of this model. It holds the Ctrl+C handler (the `ShutdownSignal` event stands for it), `characteristic_io`, `read_from_characteristic` and `flush_notify_buffer`.
- The fairness and timing of `tokio::select!` are not modelled: the event script chooses the branch.
- The one-second `sleep` in `stop` is counted as a pause, with no duration.
- The implicit drop of the configuration that `start` took out of its field happens at application_server.rs:97 and is not modelled.
- ServeLoop.Decode: `String::from_utf8_lossy` is not modelled: received bytes become one character per byte. The command comparisons stay exact, since no non-ASCII byte sequence decodes to "ping", "pong" or "exit".
- Factory.ToLower: `str::to_lowercase` is modelled for ASCII letters only. The name comparisons stay exact, since no non-ASCII character lowercases into "client", "server", "ping_pong", "adder" or "cts".
- All printing is left out.
- Adder.Sum: accumulates with 32-bit wrap-around, as a release build does. A debug build panics on overflow instead.
- Adder.WrappedTotal: same wrap-around as `Adder.Sum`, for the same reason.
- PingPong.ExerciseCharacteristics: every characteristic IO call succeeds. The `?` on `characteristic_io` (ping_pong.rs:113-114) and the `expect` panics on a failed write or read (ping_pong.rs:120, 125-126) are not modelled. The model gives the call sequence only.
- Cts.VectorToNaiveDateTime: the leap second 60 is not accepted. chrono accepts it, but the layout this codec follows does not.
- Cts.RoundTrip: holds for years 0..9999, not 0..65535. Without a sign, chrono's `%Y` reads at most four digits, so a five-digit year fails to decode.
- The `application_descriptor`s of the CTS, adder and ping-pong applications are not modelled.
  - ping-pong calls `default_descriptor` with four arguments, which matches no definition.
  - The heart-rate descriptor calls `default_read`, which is defined as `default_reade`. It is modelled with `default_reade`.
- The adder client's `exercise_characteristics` (adder.rs:106-135) is not modelled. It has the same shape as ping-pong's, with generated entries in place of the fixed commands.
- The heart-rate `serve` is `todo!()`, and its notification loop is timing-driven. Only the decoding and the descriptor are modelled.
- resources/database.inc is not part of this model. `DEVICES_TO_BE_PAIRED` is a constructor parameter of the client.
- The environment variables are a map given as input, and `get_env_var` is a lookup in it.
