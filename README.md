# AORURA LED protocol, emulator and command-line syntax

A Dafny model of the AORURA LED wire protocol and the three programs that use it:

- **Protocol** (`protocol.dfy`): the six colours and the bytes they are written as (`B G O P R Y`), the device states `Aurora | Flash(color) | Off | Static(color)`, the 2-byte command of each state, the decoder that maps a command back to a state, the status query `SS`, and the serial client's `Led::set`. `Led::set` writes the command and reads one reply byte. It succeeds only if that byte is `Y`.
- **Server** (`server.dfy`): the emulator server. It is a class holding one state. Its `Run` loop answers each 2-byte command:
  - the status query gets the encoded state;
  - a decodable command gets `Y`, and the state changes only when the server is writable;
  - anything else gets `N`.
  The loop's meaning is the function `Replay`, a left fold of the one-step function `Respond`.
- **Emulator** (`emulator.dfy`): the older emulator loop in the emulator binary's `main`. It keeps a local state that starts as `Flash(Blue)` and replaces it unconditionally. It is proved step for step equal to the server with writes allowed.
- **Cli** (`cli.dfy`): the command-line text syntax `aurora | off | flash:<color> | static:<color>`. The model has the parser (`DeserializeOptionState`), the printer (`StateIntoString`) and `str::split` on `:`. The parser is proved to accept exactly the printed texts.

`wrappers.dfy` holds the `Option`, `Result` and `Outcome` datatypes.

The decoder `State::try_from(&Command)`, the constant `STATUS_COMMAND` and `Default for State` are used by the emulator but are not defined in the files modelled here. The decoder is modelled as a structural match: the second byte selects the variant and the first byte the colour. It is proved to be the exact partial inverse of the encoder. `STATUS_COMMAND` is the constant `SS`. The server's default state is a constructor parameter. The emulator binary uses `Flash(Blue)`.

A server that is not writable still answers a valid set command with `Y` and keeps its state (emu/src/server.rs:36-41); `Server.Respond` does the same.

## Model

| member | source | states |
|---|---|---|
| Protocol.ColorByte | self/src/lib.rs:19-26 | the wire byte of each colour is an upper-case ASCII letter after `A`, and never `S` or `X`, the letters that begin the status query and the `Off` command |
| Protocol.ColorOfByte | self/src/lib.rs:19-26 | reads the colour table backwards: a colour is returned only if its wire byte is `b`, and none is returned only if no colour has that byte |
| Protocol.ColorBytesDistinct | self/src/lib.rs:19-26 | the six colour bytes are pairwise distinct, and none is `A` or `X` |
| Protocol.Encode | self/src/lib.rs:37-48 | every state's command is two bytes and is never the status query |
| Protocol.EncodeExamples | self/src/lib.rs:80-83 | `Flash(Blue)` encodes to `B*`; `Aurora`, `Off` and `Static(Red)` follow the table (`A<`, `XX`, `R!`) |
| Protocol.EncodeInjective | self/src/lib.rs:39-48 | two states have the same command if and only if they are equal |
| Protocol.Decode | emu/src/server.rs:35 | a decoded state encodes back to the command; a failure is `InvalidCommand` carrying the command |
| Protocol.DecodeIsPartialInverse | self/src/lib.rs:39-48 | decoding a command gives `s` if and only if `s` encodes to that command |
| Protocol.DecodeEncode | self/src/lib.rs:39-48 | round trip: decoding the command of any state gives that state |
| Protocol.DecodeFailsOutsideRange | emu/src/server.rs:35-45 | decoding fails exactly on the byte pairs that no state encodes to |
| Protocol.StatusIsNoState | emu/src/server.rs:31-35 | the status query is rejected by the decoder and produced by no state |
| Protocol.DecodeRejects | emu/src/server.rs:35-45 | `[0,0]`, `B?` and `Z*` are rejected; `B*` decodes to `Flash(Blue)` |
| Protocol.Led.Set | self/src/lib.rs:61-72 | writes exactly the state's command and reads exactly one byte; succeeds if and only if that byte is `Y`; another byte is a rejection carrying it; no byte is a read failure |
| Server.Respond | emu/src/server.rs:29-47 | the reply is two bytes exactly for the status query and otherwise `Y` or `N`; the state changes only on an acknowledged command to a writable server |
| Server.RespondStatus | emu/src/server.rs:31-33 | the status query is answered with the encoded state, and the state is unchanged |
| Server.RespondAccepted | emu/src/server.rs:35-41 | a command that encodes a state is answered `Y`; the state becomes the decoded state when writable and is unchanged otherwise |
| Server.RespondRejected | emu/src/server.rs:42-45 | any other non-status command is answered `N` and the state is unchanged |
| Server.Replay | emu/src/server.rs:26-48 | the run loop as a fold of `Respond` over the commands: every command gets at least one reply byte, and a server that is not writable ends in the state it started in |
| Server.ReplayReplyBound | emu/src/server.rs:31-46 | a run writes at most two bytes per command |
| Server.ReplaySnoc | emu/src/server.rs:26-48 | a command added at the end is answered after all the others, from the state they leave |
| Server.ReplayAppend | emu/src/server.rs:26-48 | running two command sequences one after the other equals running their concatenation: the replies concatenate and the state threads through |
| Server.ReplayCons | emu/src/server.rs:26-48 | the run is a left fold: the first command is answered first, and the rest runs from the state it leaves |
| Server.ReplayStatusOnly | emu/src/server.rs:31-33 | any number of status queries leaves the state unchanged |
| Server.QueryAfterSet | emu/src/server.rs:31-41 | a set command followed by a status query is answered `Y` and then the command of the state now held: the new state when writable, the old one otherwise |
| Server.QueryAfterReject | emu/src/server.rs:31-45 | an invalid command followed by a status query is answered `N` and then the prior state's command; the state is unchanged |
| Server.Server.constructor | emu/src/server.rs:13-17 | a new server holds the default state |
| Server.Server.Get | emu/src/server.rs:19-21 | returns the held state |
| Server.Server.Set | emu/src/server.rs:51-53 | the held state becomes the given state, so a following `Get` returns it |
| Server.Server.Run | emu/src/server.rs:23-49 | the bytes written are the replies of `Replay` from the old state, and the new state is the state `Replay` leaves |
| Emulator.Answer | emu/src/main.rs:74-88 | one pass of the emulator loop is the server's step with writes allowed |
| Emulator.AnswerReplaces | emu/src/main.rs:78-82 | a decodable command replaces the state unconditionally and is answered `Y` |
| Emulator.Serve | emu/src/main.rs:62-89 | the emulator loop writes the replies of a writable server started in `Flash(Blue)` and ends in the state that server ends in; each pass acts on the freshly read command only |
| Emulator.ServeIsServerRun | emu/src/main.rs:62-89 | the emulator loop and `Server::run` with `is_writable = true` on a server built with `Flash(Blue)` write the same replies and end in the same state |
| Emulator.FirstStatusQuery | emu/src/main.rs:62-76 | a first status query to the emulator is answered `B*` |
| Cli.ColorName | self/src/lib.rs:16-26 | every colour name is a non-empty run of lower-case letters, as serde's lower-case renaming gives |
| Cli.ColorFromName | cli/src/main.rs:25 | a colour is returned only for its own lower-case name; for any other text no colour has that name |
| Cli.UnitStateFromName | cli/src/main.rs:32 | a bare variant name gives `Aurora` or `Off` only when it is that state's printed text; a text that is neither `aurora` nor `off` gives nothing |
| Cli.Split | cli/src/main.rs:21 | splitting on `:` gives at least one segment, no segment holds `:`, and joining the segments with `:` gives the text back |
| Cli.SplitWithoutSeparator | cli/src/main.rs:21 | a text without `:` splits into itself alone |
| Cli.SplitAtSeparator | cli/src/main.rs:21 | a colon-free head before the first `:` is the first segment, and the rest splits as before |
| Cli.DeserializeOptionState | cli/src/main.rs:11-36 | an absent argument, and only that, parses to `None` |
| Cli.StateIntoString | cli/src/main.rs:38-43 | the printed text of a state is non-empty and holds a colon exactly when the state carries a colour |
| Cli.SplitStateText | cli/src/main.rs:38-43 | the printed text of `Flash`/`Static` splits into the head and the colour name; that of `Aurora`/`Off` is one segment |
| Cli.ColorFromNameOfName | cli/src/main.rs:25 | every colour is found again by its own lower-case name |
| Cli.ParsePrintedColored | cli/src/main.rs:21-43 | the printed text of `Flash(c)` or `Static(c)` parses back to that state through the `flash`/`static` head and the colour name |
| Cli.ParsePrintedUnit | cli/src/main.rs:21-43 | the printed text of `Aurora` or `Off` parses back to that state as a bare variant name |
| Cli.ParsePrinted | cli/src/main.rs:11-44 | parsing the printed text of any state gives back `Some` of that state |
| Cli.ParseExactlyPrinted | cli/src/main.rs:11-44 | a text parses to state `s` if and only if it is the printed text of `s` |
| Cli.RejectsVariantWithoutColor | cli/src/main.rs:23-32 | `flash` or `static` without a colour is rejected |
| Cli.RejectsColorAfterOtherHead | cli/src/main.rs:23-32 | a colour after any head other than `flash` or `static` (such as `aurora:blue`) is rejected |
| Cli.RejectsManySegments | cli/src/main.rs:21-32 | a text with more than one `:` (such as `a:b:c`) is rejected |
| Cli.RejectsUnknownColor | cli/src/main.rs:24-25 | `flash:` or `static:` followed by a text that names no colour is rejected with that text |
| Cli.RejectsCapitalized | self/src/lib.rs:28-35 | variant names are lower-case only: `Aurora` is rejected |

## Left out

- Opening and configuring the serial port (`Led::open`, `SERIAL_SETTINGS`, self/src/lib.rs:8-14, 54-59) is not modelled, because it is a foreign library and hardware settings. `Led` instead starts from the bytes the device will send.
- `Led::get` is called at cli/src/main.rs:78 but is not defined in self/src/lib.rs. It is not part of this model.
- Protocol.Led.Set never fails on its write: a failed `write` at self/src/lib.rs:66 returns before any read, which the model does not capture. Its rejection error carries the reply byte, while the source's `ensure!` at self/src/lib.rs:69 returns a generic error without it.
- Protocol.Led.Set, Server.Server.Run and Emulator.Serve assume every `write` sends the whole buffer. The source calls `write` and ignores the count it returns (self/src/lib.rs:66, emu/src/server.rs:33, 40, 44, emu/src/main.rs:76, 81, 85), so a short write is possible there. The model does not capture it, because the transport is outside the model.
- Server.Server.Run and Emulator.Serve: the transport is a finite sequence of 2-byte commands. The end of the sequence stands for the read error that ends the source's endless loop. The `Err` that the loop then returns, and write errors, are not modelled.
- The `Mutex` around the server's state (emu/src/server.rs:9, 20, 29, 52) is not modelled. Every step runs entirely under the lock, so a plain field with sequential steps is used. Several transports running at once are not modelled.
- The pseudo-terminal, the symlink and its removal are not modelled (emu/src/pty.rs, emu/src/main.rs:30-52, 64-68). These are operating-system I/O.
- Argument parsing, usage text, logging, `println!` and the process exit are not modelled (cli/src/main.rs:46-84, emu/src/main.rs:18-28, 55-60). The warning logged for a rejected command is also left out.
- Serde's lower-case renaming is written as explicit name tables (`ColorName`, `ColorFromName`, `UnitStateFromName`). Deserializing a bare string into `State` accepts only the variants without a payload, so `flash` and `static` alone are errors. Cli.StateIntoString returns text directly because its `Fallible` never fails for these values. The model's errors (`InvalidColor`, `InvalidState`) say which text was rejected. They do not reproduce serde's messages.
