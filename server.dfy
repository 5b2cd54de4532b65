/** The emulator server: one device state, and a loop that answers every
    2-byte command read from the transport. */
module Server {
  import opened Wrappers
  import opened Protocol

  /** The acknowledgement and the rejection reply. */
  const Ack: seq<byte> := [Ascii('Y')]
  const Nack: seq<byte> := [Ascii('N')]

  /** What a run has written so far, and the state it leaves. */
  datatype Step = Step(reply: seq<byte>, next: State)

  /** One iteration of the run loop: the reply to `cmd` and the new state.
      Only the status query gets a 2-byte reply; every other command is
      answered with one byte, `Y` or `N`. */
  function Respond(state: State, cmd: Command, isWritable: bool): (r: Step)
    ensures |r.reply| == 2 <==> cmd == StatusCommand
    ensures cmd != StatusCommand ==> r.reply == Ack || r.reply == Nack
    ensures r.next != state ==> isWritable && r.reply == Ack
  {
    if cmd == StatusCommand then
      Step(Encode(state), state)
    else
      match Decode(cmd)
      case Ok(newState) => Step(Ack, if isWritable then newState else state)
      case Err(_) => Step(Nack, state)
  }

  /** The status query is answered with the encoded state, which it leaves alone. */
  lemma RespondStatus(state: State, isWritable: bool)
    ensures Respond(state, StatusCommand, isWritable) == Step(Encode(state), state)
  {
  }

  /** A command that sets state `s` is acknowledged, and takes effect only
      when the server is writable. */
  lemma RespondAccepted(state: State, s: State, isWritable: bool)
    ensures Respond(state, Encode(s), isWritable) == Step(Ack, if isWritable then s else state)
  {
    DecodeEncode(s);
  }

  /** A command that no state encodes to is rejected and changes nothing. */
  lemma RespondRejected(state: State, cmd: Command, isWritable: bool)
    requires cmd != StatusCommand
    requires forall s :: Encode(s) != cmd
    ensures Respond(state, cmd, isWritable) == Step(Nack, state)
  {
    DecodeFailsOutsideRange(cmd);
  }

  /** The run loop over a finite sequence of commands: the replies one after
      the other, and the state left by folding Respond over the commands. */
  function Replay(state: State, cmds: seq<Command>, isWritable: bool): (r: Step)
    ensures |r.reply| >= |cmds|
    ensures !isWritable ==> r.next == state
    decreases |cmds|
  {
    if cmds == [] then Step([], state)
    else
      var before := Replay(state, cmds[..|cmds| - 1], isWritable);
      var last := Respond(before.next, cmds[|cmds| - 1], isWritable);
      Step(before.reply + last.reply, last.next)
  }

  /** A run writes at most two bytes per command. */
  lemma {:induction false} ReplayReplyBound(state: State, cmds: seq<Command>, isWritable: bool)
    ensures |Replay(state, cmds, isWritable).reply| <= 2 * |cmds|
    decreases |cmds|
  {
    if cmds != [] {
      ReplayReplyBound(state, cmds[..|cmds| - 1], isWritable);
    }
  }

  /** One more command at the end is answered after all the others. */
  lemma ReplaySnoc(state: State, cmds: seq<Command>, cmd: Command, isWritable: bool)
    ensures
      var before := Replay(state, cmds, isWritable);
      var last := Respond(before.next, cmd, isWritable);
      Replay(state, cmds + [cmd], isWritable) == Step(before.reply + last.reply, last.next)
  {
    assert (cmds + [cmd])[..|cmds|] == cmds;
  }

  /** Running two command sequences one after the other is running their
      concatenation. */
  lemma {:induction false} ReplayAppend(state: State, xs: seq<Command>, ys: seq<Command>, isWritable: bool)
    ensures
      var first := Replay(state, xs, isWritable);
      var second := Replay(first.next, ys, isWritable);
      Replay(state, xs + ys, isWritable) == Step(first.reply + second.reply, second.next)
    decreases |ys|
  {
    var first := Replay(state, xs, isWritable);
    if ys == [] {
      assert xs + ys == xs;
    } else {
      var init, cmd := ys[..|ys| - 1], ys[|ys| - 1];
      var mid := Replay(first.next, init, isWritable);
      var last := Respond(mid.next, cmd, isWritable);
      calc {
        Replay(state, xs + ys, isWritable);
        { assert xs + ys == (xs + init) + [cmd]; }
        Replay(state, (xs + init) + [cmd], isWritable);
        { ReplaySnoc(state, xs + init, cmd, isWritable); ReplayAppend(state, xs, init, isWritable); }
        Step((first.reply + mid.reply) + last.reply, last.next);
        { assert (first.reply + mid.reply) + last.reply == first.reply + (mid.reply + last.reply); }
        Step(first.reply + (mid.reply + last.reply), last.next);
        { assert ys == init + [cmd]; ReplaySnoc(first.next, init, cmd, isWritable); }
        Step(first.reply + Replay(first.next, ys, isWritable).reply, Replay(first.next, ys, isWritable).next);
      }
    }
  }

  /** The run is a left fold: the first command is answered first, and the
      rest runs from the state it leaves. */
  lemma {:induction false} ReplayCons(state: State, cmd: Command, rest: seq<Command>, isWritable: bool)
    ensures
      var head := Respond(state, cmd, isWritable);
      var tail := Replay(head.next, rest, isWritable);
      Replay(state, [cmd] + rest, isWritable) == Step(head.reply + tail.reply, tail.next)
  {
    ReplayAppend(state, [cmd], rest, isWritable);
    assert [cmd][..0] == [];
  }

  /** Status queries in a run never change the state. */
  lemma {:induction false} ReplayStatusOnly(state: State, n: nat, isWritable: bool)
    ensures Replay(state, seq(n, _ => StatusCommand), isWritable).next == state
  {
    if n > 0 {
      assert seq(n, _ => StatusCommand)[..n - 1] == seq(n - 1, _ => StatusCommand);
      ReplayStatusOnly(state, n - 1, isWritable);
    }
  }

  /** A set followed by a status query: the set is acknowledged, and the
      query reports the state just set when the server is writable. */
  lemma QueryAfterSet(state: State, s: State, isWritable: bool)
    ensures
      var now := if isWritable then s else state;
      Replay(state, [Encode(s), StatusCommand], isWritable) == Step(Ack + Encode(now), now)
  {
    ReplayCons(state, Encode(s), [StatusCommand], isWritable);
    RespondAccepted(state, s, isWritable);
    ReplayCons(if isWritable then s else state, StatusCommand, [], isWritable);
    assert [StatusCommand] + [] == [StatusCommand];
  }

  /** A rejected command followed by a status query: the query still
      reports the prior state. */
  lemma QueryAfterReject(state: State, cmd: Command, isWritable: bool)
    requires cmd != StatusCommand
    requires forall s :: Encode(s) != cmd
    ensures Replay(state, [cmd, StatusCommand], isWritable) == Step(Nack + Encode(state), state)
  {
    ReplayCons(state, cmd, [StatusCommand], isWritable);
    RespondRejected(state, cmd, isWritable);
    ReplayCons(state, StatusCommand, [], isWritable);
    assert [StatusCommand] + [] == [StatusCommand];
  }

  /** The shared device state behind the server's lock. */
  class Server {
    var state: State

    /** A server holding the default state. */
    constructor (default: State)
      ensures state == default
    {
      state := default;
    }

    method Get() returns (s: State)
      ensures s == state
    {
      s := state;
    }

    method Set(s: State)
      modifies this
      ensures state == s
    {
      state := s;
    }

    /** The run loop over the commands the transport delivers, writing every
        reply in turn; the end of the input stands for the read error that
        ends the loop. */
    method Run(cmds: seq<Command>, isWritable: bool) returns (out: seq<byte>)
      modifies this
      ensures Replay(old(state), cmds, isWritable) == Step(out, state)
    {
      var cmd: Command := [0, 0];
      out := [];
      var i := 0;
      while i < |cmds|
        invariant 0 <= i <= |cmds|
        invariant Replay(old(state), cmds[..i], isWritable) == Step(out, state)
      {
        cmd := cmds[i];
        assert cmds[..i + 1][..i] == cmds[..i];
        if cmd == StatusCommand {
          cmd := Encode(state);
          out := out + cmd;
        } else {
          match Decode(cmd)
          case Ok(newState) =>
            if isWritable {
              state := newState;
            }
            out := out + Ack;
          case Err(_) =>
            out := out + Nack;
        }
        i := i + 1;
      }
      assert cmds[..i] == cmds;
    }
  }
}
