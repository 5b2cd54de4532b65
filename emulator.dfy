/** The stand-alone emulator loop: a local state that starts as `Flash(Blue)`
    and is replaced by every command that decodes. */
module Emulator {
  import opened Wrappers
  import opened Protocol
  import Server

  const InitialState: State := Flash(Blue)

  /** One pass of the loop body, with the state update unconditional. It is
      the server's step with writes allowed. */
  function Answer(state: State, cmd: Command): (r: Server.Step)
    ensures r == Server.Respond(state, cmd, true)
  {
    if cmd == StatusCommand then
      Server.Step(Encode(state), state)
    else
      match Decode(cmd)
      case Ok(newState) => Server.Step(Server.Ack, newState)
      case Err(_) => Server.Step(Server.Nack, state)
  }

  /** Any command that sets a state replaces the current one and is acknowledged. */
  lemma AnswerReplaces(state: State, s: State)
    ensures Answer(state, Encode(s)) == Server.Step(Server.Ack, s)
  {
    Server.RespondAccepted(state, s, true);
  }

  /** The emulator's loop over the commands read from the pseudo-terminal.
      Each pass reads a fresh command into the buffer; the status reply
      written into that buffer is overwritten by the next read. The replies
      and the last state are those of a writable server that starts from
      `Flash(Blue)`. */
  method Serve(cmds: seq<Command>) returns (out: seq<byte>, state: State)
    ensures Server.Replay(InitialState, cmds, true) == Server.Step(out, state)
  {
    state := InitialState;
    var cmd: Command := [0, 0];
    out := [];
    var i := 0;
    while i < |cmds|
      invariant 0 <= i <= |cmds|
      invariant Server.Replay(InitialState, cmds[..i], true) == Server.Step(out, state)
    {
      ghost var before, written := state, |out|;
      cmd := cmds[i];
      assert cmds[..i + 1][..i] == cmds[..i];
      if cmd == StatusCommand {
        cmd := Encode(state);
        out := out + cmd;
      } else {
        match Decode(cmd)
        case Ok(newState) =>
          state := newState;
          out := out + Server.Ack;
        case Err(_) =>
          out := out + Server.Nack;
      }
      assert Answer(before, cmds[i]) == Server.Step(out[written..], state);
      i := i + 1;
    }
    assert cmds[..i] == cmds;
  }

  /** A status query as the first command is answered `B*`. */
  lemma FirstStatusQuery(rest: seq<Command>)
    ensures
      var r := Server.Replay(InitialState, [StatusCommand] + rest, true).reply;
      |r| >= 2 && r[..2] == [Ascii('B'), Ascii('*')]
  {
    Server.ReplayCons(InitialState, StatusCommand, rest, true);
  }

  /** The emulator loop and a writable server built with `Flash(Blue)` write
      the same replies and end in the same state. */
  method ServeIsServerRun(cmds: seq<Command>)
    returns (served: seq<byte>, ran: seq<byte>, emulated: State, held: State)
    ensures served == ran && emulated == held
  {
    served, emulated := Serve(cmds);
    var server := new Server.Server(InitialState);
    ran := server.Run(cmds, true);
    held := server.state;
  }
}
