# Flashlight command pipeline in Dafny

A model of the flashlight service's command pipeline:

- the reconnecting reader `_read_remote_commands`. It splits the upstream byte stream into `}`-terminated frames, validates each frame as a `CommandDTO`, skips the invalid ones and reconnects after a clean end of stream;
- the reducer `listen_to_commands`. It sets the on flag or the colour of the shared application state and then calls the notification hook;
- the application side in `src/app.py`:
  - the state report `get_current_state`, with its colour text `#` plus `{:06x}`;
  - the defaults written at start-up;
  - the set of websocket clients, which the websocket handler adds to and removes from;
  - `broadcast`, which sends one snapshot to every client.

Modules:

- `Base`: `Option`, `Result` and `Max`.
- `Commands`: `CommandType`, `CommandDTO` and the root validator.
- `Framing`: `readuntil(b"}")` framing.
- `HexFormat`: Python's `06x` format.
- `RemoteCommands`: the reader, with methods proved against the function `Run`.
- `ReaderProperties`: lemmas about `Run`.
- `Reducer`: the reducer as functions on the device state.
- `App`: the state report and the class `Flashlight`, whose methods update the application state in place.
- `MockServer`: the mock server's command list and wire text, used as a test sequence.

The network is a finite script of connection attempts. Each attempt is one of:

- refused;
- cancelled while connecting;
- opened. It then delivers some text and ends with a clean end of stream, a reset, or a cancellation.

When the script runs out while the reader is about to connect again, the reader is still running (state `Connecting`).

The reader as written sets its attempt counter to 1 and never changes it. `RemoteCommands.ReadRemoteCommands` models exactly that, and `ReaderProperties` proves what it does. The corrected reader `RemoteCommands.ReadRemoteCommandsBounded` counts one attempt per reconnect and fails with `Exhausted` once its tries are used up (see Findings). The pipeline (`App.Flashlight.ListenToCommands`, `App.RunListeningToCommands`) takes a `Counting` argument: `AsWritten` runs the source's reader, `PerReconnect` the corrected one.

Points where the model follows the code closely:

- The as-written reader retries without bound once its loop has started. The code itself shows that a bound was meant: the parameter `max_reconnect_tries` (src/flashlight_state.py:36), the loop guard `attempt <= max_reconnect_tries` (line 40), and the "(attempt %d)" log lines (lines 41 and 43), which would print 1 on every reconnect. The corrected reader keeps that bound.
- When the as-written attempt loop ends (only when `max_reconnect_tries < 1`), the generator simply returns (`Terminated(Returned)`). That is not an error: `listen_to_commands` ends without raising, and `halt_if_exception` (src/app.py:76-82) leaves the service running. The corrected reader instead ends with `Terminated(Exhausted)` when its tries run out, an error that stops the service like a re-raised connection error (`App.HaltsService`).
- A reset while reading is a `ConnectionError`. The code re-raises it; it does not reconnect. Only a clean end of stream reconnects.
- The colour is not masked to 24 bits. `0xdeadbeef` is shown as `#deadbeef`, and a negative colour is shown as Python does, with the sign counted in the width (`-00001`).

## Model

| member | source | states |
|---|---|---|
| Commands.ParseCommandType | src/flashlight_state.py:14-17 | a string names a kind exactly when it is the value of ON, OFF or COLOR; the kind found has that value |
| Commands.Validate | src/flashlight_state.py:20-33 | a record is accepted iff its kind is one of the three and, for COLOR, metadata is present; accepted records keep both fields; an unknown kind is rejected as such |
| Commands.ParseRaw | src/flashlight_state.py:48 | text that does not decode is rejected; otherwise the result is the validator's verdict on the decoded fields, and an accepted record is valid |
| Commands.ColorNeedsMetadata | src/flashlight_state.py:28-33 | COLOR passes iff metadata is present; missing metadata is the colour error |
| Commands.OnOffAcceptAnyMetadata | src/flashlight_state.py:30-33 | ON and OFF pass with or without metadata and keep it unchanged |
| Commands.KindIsClosed | src/flashlight_state.py:14-21 | any command string other than the three kinds is rejected |
| Framing.ReadUntil | src/flashlight_state.py:47 | no frame iff the buffer has no `}`; otherwise the frame is the shortest prefix ending in `}` and frame plus rest is the buffer |
| Framing.ReadUntilFrame | src/flashlight_state.py:47 | a buffer that starts with a whole frame yields exactly that frame and the rest |
| Framing.Frames | src/flashlight_state.py:45-47 | the repeated `readuntil(b"}")` calls of one connection: every piece it returns is a whole frame; `Framing.FramesCover` and `Framing.FramesOfConcat` state that the pieces are exactly the buffer's frames |
| Framing.Remainder | src/flashlight_state.py:47 | the bytes left after the last `}`, at which `readuntil` raises `EOFError`: they hold no `}`; `Framing.FramesCover` states that frames plus remainder give the buffer back |
| Framing.FramesCover | src/flashlight_state.py:45-47 | the frames of a buffer and its remainder, put together, give the buffer back |
| Framing.FramesOfConcat | src/flashlight_state.py:47 | frames written back to back, then an incomplete tail, split back into the same frames and tail |
| HexFormat.Hex | src/app.py:36 | at least one lower-case hex digit, with a leading zero only for 0 |
| HexFormat.ZeroPad | src/app.py:36 | pads with zeros in front to the width and never shortens |
| HexFormat.ParseHexOfHex | src/app.py:36 | the hex digits of n read back as n |
| HexFormat.ParseHexLeadingZeros | src/app.py:36 | leading zeros do not change the value read back |
| HexFormat.Format06x | src/app.py:36 | Python's `{:06x}` on an integer; `HexFormat.FormatNonNegative` and `HexFormat.FormatNegative` state what it writes for each sign |
| HexFormat.ColorString | src/app.py:36 | `"#" + f"{color:06x}"`; `HexFormat.ColorStringRoundTrip` states that it reads back as the colour |
| HexFormat.FormatNonNegative | src/app.py:36 | `06x` of n >= 0 is max(6, digits) lower-case hex characters that read back as n |
| HexFormat.FormatNegative | src/app.py:36 | `06x` of n < 0 is `-` then at least five hex digits that read back as -n |
| HexFormat.ColorStringRoundTrip | src/app.py:36 | the colour text is `#`, then hex that reads back as the colour, never truncated; length max(6, digits) + 1 for a non-negative colour |
| HexFormat.DefaultColorString | src/app.py:71 | the start-up sentinel 0xdeadbeef is shown whole as `#deadbeef` |
| HexFormat.PinkColorString | src/mock_commands_server.py:14 | 0xFF69B4 is shown as `#ff69b4` |
| HexFormat.BlueColorString | src/mock_commands_server.py:16 | 0x00BFFF is shown as `#00bfff`, padded with zeros to six digits |
| HexFormat.MockColorStrings | src/mock_commands_server.py:14-16 | the mock colours are shown as `#ff69b4` and `#00bfff`, the second padded to six digits |
| RemoteCommands.Accepted | src/flashlight_state.py:46-51 | the commands kept from a list of frames are valid and no more than the frames |
| RemoteCommands.Drain | src/flashlight_state.py:45-51 | the commands one connection yields: valid ones, no more than its complete frames; `RemoteCommands.DrainFrame` states the frame-by-frame order |
| RemoteCommands.AfterConnection | src/flashlight_state.py:52-61 | only a clean end of stream (`EOFError`) leads back to connecting; a reset or a cancellation ends the reader (`ReaderProperties.FirstFailureDecidesExit` says how) |
| RemoteCommands.Closing | src/flashlight_state.py:62-64 | the `finally` clause closes at most one writer, the one in hand, and always closes it when there is one |
| RemoteCommands.Run | src/flashlight_state.py:36-64 | the generator from a given attempt on; `ReaderProperties.RunConnects`, `OnlyLastWriterClosed`, `ConnsExtend`, `YieldsEachConnectionOnce` and `YieldedAreValid` state what it does for either counting |
| RemoteCommands.ReadRemote | src/flashlight_state.py:36-40 | the generator as written, counter 1 and never changed; `ReaderProperties.ReadRemoteFacts` states its whole-run facts |
| RemoteCommands.ReadRemoteBounded | src/flashlight_state.py:36-43 | the corrected generator, one try per connection; `ReaderProperties.ReadRemoteBoundedFacts` states its whole-run facts |
| RemoteCommands.DrainFrame | src/flashlight_state.py:47-51 | reading one frame: a frame that passes validation puts its command before those of the following bytes; a frame that fails adds nothing |
| RemoteCommands.ReadConnection | src/flashlight_state.py:45-54 | the inner loop yields exactly the valid commands of the connection's complete frames, in order, and moves on as its ending dictates |
| RemoteCommands.ReadRemoteCommands | src/flashlight_state.py:36-64 | the reader as written, with the counter fixed at 1, produces exactly the outcome `ReadRemote` describes (commands, final state, writers opened and closed) |
| RemoteCommands.ReadRemoteCommandsBounded | src/flashlight_state.py:36-64 | the corrected reader, counting one attempt per reconnect and failing when the tries are used up, produces exactly the outcome `ReadRemoteBounded` describes |
| ReaderProperties.InvalidFrameSkipped | src/flashlight_state.py:50-51 | a frame that fails validation yields nothing, and reading continues with the following bytes |
| ReaderProperties.ValidFrameYielded | src/flashlight_state.py:47-49 | a frame that passes is yielded before everything after it |
| ReaderProperties.NoTriesYieldsNothing | src/flashlight_state.py:39-40 | with `max_reconnect_tries <= 0` nothing is opened, yielded or closed; as written the generator returns, the corrected reader fails with `Exhausted` |
| ReaderProperties.RunConnects | src/flashlight_state.py:40-54 | a connection that ends cleanly hands over to the next attempt with its commands yielded, its number recorded and its writer in hand |
| ReaderProperties.OnlyLastWriterClosed | src/flashlight_state.py:62-64 | on every exit only the last writer opened is closed (none while running); replaced writers are never closed |
| ReaderProperties.ConnsExtend | src/flashlight_state.py:40-43 | the reader only appends connections, and those it appends are the consecutive attempts from the current one on, each an attempt that connected |
| ReaderProperties.YieldsEachConnectionOnce | src/flashlight_state.py:40-54 | the yielded commands are those of the opened connections, each drained once, in order |
| ReaderProperties.YieldedAreValid | src/flashlight_state.py:48-49 | every yielded command passed validation |
| ReaderProperties.AsWrittenNeverReturns | src/flashlight_state.py:39-40 | as written, once the loop has started it never returns by itself |
| ReaderProperties.EveryEofReconnects | src/flashlight_state.py:52-54 | as written, every clean end of stream leads to a fresh connect, with no limit |
| ReaderProperties.FirstFailureDecidesExit | src/flashlight_state.py:56-61 | the first attempt that is not a clean end of stream decides the exit: a connection error or reset is re-raised, a cancellation ends without error |
| ReaderProperties.BoundedOpensAtMost | src/flashlight_state.py:39-40 | the corrected reader opens at most as many connections as the counter has left |
| ReaderProperties.BoundedGivesUp | src/flashlight_state.py:39-40 | the corrected reader fails with `Exhausted` once more clean-ending connections are on offer than the counter allows |
| ReaderProperties.OnlyAsWrittenReturns | src/flashlight_state.py:39-40 | ending by a plain return happens only as written; the corrected reader never ends quietly |
| ReaderProperties.ReadRemoteFacts | src/flashlight_state.py:36-64 | over a whole run as written: only the last writer is closed, the connections opened are attempts 0, 1, 2, ... in turn, yielded commands are valid and come from those connections in order, and with at least one try it never returns |
| ReaderProperties.ReadRemoteBoundedFacts | src/flashlight_state.py:36-64 | over a whole run of the corrected reader: the same facts, at most `max_reconnect_tries` connections are opened, and it never ends by a plain return |
| ReaderProperties.AsWrittenIgnoresLimit | src/flashlight_state.py:39-40 | with a limit of five, six clean-ending connections are all opened as written, while the corrected reader opens at most five and fails with `Exhausted` |
| Reducer.Reduce | src/flashlight_state.py:71-86 | the `match` on the command kind; `Reducer.ReduceSetsOneField` states what each arm sets and that an unknown kind matches none |
| Reducer.Step | src/flashlight_state.py:71-86 | the state after one pass of the loop body; `Reducer.ReduceSetsOneField` and `Reducer.UnknownCommandKeepsState` state it |
| Reducer.ReduceAll | src/flashlight_state.py:70-86 | the state after the loop over several commands; `Reducer.Snoc` states that each command takes one step in order |
| Reducer.Notified | src/flashlight_state.py:70-89 | the states the hook is called with; `Reducer.Snoc` and `Reducer.NotifiedOncePerCommand` state that there is one per matched command, in order |
| Reducer.Snoc | src/flashlight_state.py:70-89 | one more command takes the state one step and adds the new state to the notifications iff an arm matched |
| Reducer.ReduceSetsOneField | src/flashlight_state.py:71-86 | ON sets the flag true, OFF false, COLOR sets the colour to the metadata, the other field kept; an unknown kind matches no arm and changes nothing |
| Reducer.NotifiedOncePerCommand | src/flashlight_state.py:88-89 | for validated commands the hook runs exactly once per command, after that command and before the next |
| Reducer.UnknownCommandKeepsState | src/flashlight_state.py:84-86 | a command of unknown kind leaves the final state as if it had not been sent |
| Reducer.UnknownCommandNotNotified | src/flashlight_state.py:84-89 | a command of unknown kind is not notified, and the other notifications are unchanged |
| Reducer.ColorTwice | src/flashlight_state.py:80-82 | the same COLOR twice leaves its colour, as once does, and notifies twice |
| App.GetCurrentState | src/app.py:33-37 | the report of a state; `App.ReportFormat` states its fields |
| App.ReportFormat | src/app.py:33-37 | the report carries the on flag, and the colour text starts with `#` and has at least six more characters; for a colour >= 0 it is max(6, digits) lower-case hex digits that read back as the colour; for a colour < 0 it is `-` and then at least five hex digits that read back as the colour's magnitude |
| App.ReportsSnoc | src/app.py:63-65 | one more state adds its report at the end |
| App.ReportsPointwise | src/app.py:63-65 | the reports are the states' reports one for one, in order |
| App.SentSnoc | src/flashlight_state.py:71-89 | handling one more command sends its report exactly when an arm matched and a hook is set |
| App.DefaultReport | src/app.py:70-71 | the default state is reported as on with colour `#deadbeef` |
| App.Listened | src/flashlight_state.py:70 | what `listen_to_commands` iterates, `_read_remote_commands(host, port)` with its default of five tries: the as-written reader's outcome for `AsWritten`, the corrected reader's for `PerReconnect` |
| App.HaltsService | src/app.py:76-82 | the service stops iff the listener ended with an exception (`Raised` or `Exhausted`); a plain return or a swallowed cancellation leaves it running |
| App.ListenerEndsLoudly | src/app.py:74-82 | with either reader and five tries, when the listener ends, `halt_if_exception` stops the service exactly when it was not cancelled |
| App.AsWrittenKeepsServing | src/app.py:74-82 | as written, when the upstream server keeps closing the stream, the listener keeps reconnecting and the service never stops |
| App.GivingUpHaltsService | src/app.py:74-82 | with the corrected reader, when the upstream server keeps closing the stream, the listener gives up after five connections and the service stops |
| App.Flashlight.constructor | src/app.py:68-73 | the defaults: on, 0xdeadbeef, an empty client set, nothing sent |
| App.Flashlight.Register | src/app.py:45-47 | the websocket joins the set, at most once; state and sends unchanged |
| App.Flashlight.Unregister | src/app.py:52-53 | the websocket leaves the set; `found` is false exactly when it was not there (`KeyError`) |
| App.Flashlight.WebsocketSession | src/app.py:41-56 | after the handler the websocket is no longer a client, its removal always finds it, and nothing else changes |
| App.Flashlight.Broadcast | src/app.py:59-65 | one snapshot of the unchanged state goes exactly once to every client in the set and to no one else; state and set unchanged |
| App.Flashlight.HandleCommand | src/flashlight_state.py:71-89 | one pass of the loop body: the state takes the reducer's step, and one broadcast happens iff an arm matched and a hook is set |
| App.Flashlight.HandleCommands | src/flashlight_state.py:70-89 | after the loop the state is the reduction of all commands in order, and every client received the report of each notified state in order |
| App.Flashlight.ListenToCommands | src/flashlight_state.py:67-89 | the commands of the chosen reader (as written or corrected) with five tries go through the reducer in order; the final state, sends and exit are those of that reader's outcome |
| App.RunListeningToCommands | src/app.py:68-82 | from the defaults with `broadcast` as the hook, the final state reduces the chosen reader's commands and every notified state is reported once; the service halts exactly when the listener ends other than by cancellation |
| MockServer.Serialize | src/mock_commands_server.py:35 | the text of a command is one whole frame: its only `}` is the last character |
| MockServer.SerializeAll | src/mock_commands_server.py:33-35 | one text per command, in order, each the command's own text |
| MockServer.Wire | src/mock_commands_server.py:33-35 | the bytes the server writes, back to back; `MockServer.WireSplits` and `MockServer.WireYieldsCommands` state what the reader makes of them |
| MockServer.WireSplits | src/mock_commands_server.py:33-35 | the server's bytes, then an incomplete tail, split back into one frame per command, in order |
| MockServer.AcceptedOfSerialized | src/flashlight_state.py:47-49 | valid commands whose text decodes back are all accepted, in order |
| MockServer.WireYieldsCommands | src/flashlight_state.py:45-49 | what the server writes for valid commands reaches the reader as the same commands in the same order |
| MockServer.MockCommandsAreValid | src/mock_commands_server.py:14-17 | the four mock commands pass validation |
| MockServer.MockSequence | src/mock_commands_server.py:14-17 | from any state the mock sequence ends off with colour 0x00BFFF, after four notifications in order |
| MockServer.MockReports | src/mock_commands_server.py:14-17 | from the defaults the clients receive `#ff69b4` twice, then `#00bfff` twice, the last one reporting off |
| MockServer.OneConnection | src/flashlight_state.py:42-54 | one connection carrying valid commands: after a clean end either reader has yielded them and is reconnecting; after a reset the reader re-raises and closes that writer |
| MockServer.MockConnection | src/mock_commands_server.py:14-17 | one connection to the mock server delivers its four commands unchanged and in order, to either reader |

## Left out

- Socket I/O is not modelled: `asyncio.open_connection`, the stream reader's buffer, and the effect of `writer.close`. Connections are the attempts of a script. A closed writer is recorded by its number.
- `LimitOverrunError` from `readuntil` on an over-long frame is not modelled. The stream reader's buffer limit is left out.
- Bytes of a connection that is reset or cancelled are all taken as read before the reset. The model does not capture a reset arriving in the middle of the data.
- A script that runs out is a horizon, not an event. A reader left `Connecting` would block in the next connect.
- JSON decoding by pydantic (`parse_raw`) is the parameter `decode`, and only the field and root validators are modelled. Likewise, `.json()` is modelled only for whole numbers of magnitude at most 2^53: the metadata is an `Optional[float]` (src/flashlight_state.py:22), so above 2^53 the float conversion rounds, and from 10^16 on Python writes an exponent.
- Metadata and colours are integers. `Optional[float]` and the truncation in `int(color)` are not modelled.
- The asyncio task that runs the listener, the way `GracefulExit` unwinds the web application, and cancellation timing are not modelled. `halt_if_exception` is modelled only as the decision whether the service stops (`App.HaltsService`). Cancellation is an event in the script. Concurrent registry changes while `broadcast` awaits a send are not modelled: all methods are sequential calls.
- The order in which `broadcast` visits the set is not modelled, and a failed send to a closing websocket is not modelled either.
- HTTP routes, `FileResponse`, the websocket message loop (src/app.py:48-50) and logging are not part of this model. `static/flashlight.js` is not part of this model.
- The timer and the endless cycle of the mock server are not modelled. Its list and its wire text are used as a test sequence.
- `on_command = None` is the `hooked` flag being false.

## Findings

| source | as written | input that shows it | evidently intended | confidence | as-written member | corrected member |
|---|---|---|---|---|---|---|
| src/flashlight_state.py:39-40 | `attempt` is set to 1 and never incremented, so `while attempt <= max_reconnect_tries` never ends by itself | `max_reconnect_tries = 5` and six connections that each end cleanly: all six are opened and the reader goes on connecting | at most `max_reconnect_tries` connections, then give up with an error so that `halt_if_exception` (src/app.py:76-82) stops the service | not executed | ReaderProperties.AsWrittenIgnoresLimit | ReaderProperties.BoundedOpensAtMost |

The as-written reader is `RemoteCommands.ReadRemoteCommands` and the corrected one is `RemoteCommands.ReadRemoteCommandsBounded`, with `ReaderProperties.BoundedGivesUp`, `ReaderProperties.OnlyAsWrittenReturns` and `ReaderProperties.ReadRemoteBoundedFacts` alongside. Giving up is the exit `Exhausted`, not a plain return: a plain return would end the listener task without an exception, and the service would go on serving a state that no longer changes. `App.GivingUpHaltsService` shows that the corrected reader stops the service instead, while `App.AsWrittenKeepsServing` shows that, as written, the same server keeps the service running and reconnecting. `App.Flashlight.ListenToCommands` runs either reader. The as-written reader stays modelled: `ReaderProperties.ReadRemoteFacts`, `ReaderProperties.AsWrittenNeverReturns` and `ReaderProperties.EveryEofReconnects` state what it does.
