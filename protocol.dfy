/** The AORURA LED wire protocol: colours, device states, their 2-byte wire
    commands, the status query, and the serial client that sets a state. */
module Protocol {
  import opened Wrappers

  newtype byte = b: int | 0 <= b < 256

  /** The byte of an ASCII character literal, as Rust's `b'c'`. */
  function Ascii(c: char): (b: byte)
    requires c as int < 256
  {
    c as int as byte
  }

  /** The only unit exchanged in either direction: exactly two bytes. */
  type Command = s: seq<byte> | |s| == 2 witness [0, 0]

  datatype Color = Blue | Green | Orange | Purple | Red | Yellow

  datatype State = Aurora | Flash(color: Color) | Off | Static(color: Color)

  datatype ProtocolError = InvalidCommand(cmd: Command)

  /** The byte a colour is represented by on the wire (`#[repr(u8)]`): an
      upper-case ASCII letter that is none of the letters the `Aurora` and
      `Off` commands and the status query begin with. */
  function ColorByte(c: Color): (b: byte)
    ensures Ascii('A') < b <= Ascii('Z')
    ensures b != Ascii('S') && b != Ascii('X')
  {
    match c
    case Blue => Ascii('B')
    case Green => Ascii('G')
    case Orange => Ascii('O')
    case Purple => Ascii('P')
    case Red => Ascii('R')
    case Yellow => Ascii('Y')
  }

  /** The colour whose wire byte is `b`, if any. */
  function ColorOfByte(b: byte): (r: Option<Color>)
    ensures r.Some? ==> ColorByte(r.value) == b
    ensures r.None? ==> forall c :: ColorByte(c) != b
  {
    if b == Ascii('B') then Some(Blue)
    else if b == Ascii('G') then Some(Green)
    else if b == Ascii('O') then Some(Orange)
    else if b == Ascii('P') then Some(Purple)
    else if b == Ascii('R') then Some(Red)
    else if b == Ascii('Y') then Some(Yellow)
    else None
  }

  /** The reserved query for the current state. */
  const StatusCommand: Command := [Ascii('S'), Ascii('S')]

  /** The command that sets the device to `s` (`Into<Command> for State`). */
  function Encode(s: State): (cmd: Command)
    ensures cmd != StatusCommand
  {
    match s
    case Aurora => [Ascii('A'), Ascii('<')]
    case Flash(color) => [ColorByte(color), Ascii('*')]
    case Static(color) => [ColorByte(color), Ascii('!')]
    case Off => [Ascii('X'), Ascii('X')]
  }

  /** The state a command sets (`State::try_from(&Command)`): the second byte
      selects the variant, the first byte its colour. */
  function Decode(cmd: Command): (r: Result<State, ProtocolError>)
    ensures r.Ok? ==> Encode(r.value) == cmd
    ensures r.Err? ==> r.error == InvalidCommand(cmd)
  {
    if cmd[1] == Ascii('<') then
      if cmd[0] == Ascii('A') then Ok(Aurora) else Err(InvalidCommand(cmd))
    else if cmd[1] == Ascii('*') then
      match ColorOfByte(cmd[0])
      case Some(color) => Ok(Flash(color))
      case None => Err(InvalidCommand(cmd))
    else if cmd[1] == Ascii('!') then
      match ColorOfByte(cmd[0])
      case Some(color) => Ok(Static(color))
      case None => Err(InvalidCommand(cmd))
    else if cmd == [Ascii('X'), Ascii('X')] then Ok(Off)
    else Err(InvalidCommand(cmd))
  }

  lemma ColorBytesDistinct(c: Color, d: Color)
    ensures ColorByte(c) == ColorByte(d) <==> c == d
    ensures ColorByte(c) != Ascii('A') && ColorByte(c) != Ascii('X')
  {
  }

  /** Encode is injective: the second byte tells the variant, the first the colour. */
  lemma EncodeInjective(s: State, t: State)
    ensures Encode(s) == Encode(t) <==> s == t
  {
    if Encode(s) == Encode(t) {
      assert Encode(s)[1] == Encode(t)[1];
      assert Encode(s)[0] == Encode(t)[0];
      match s
      case Flash(c) => assert t.Flash?; ColorBytesDistinct(c, t.color);
      case Static(c) => assert t.Static?; ColorBytesDistinct(c, t.color);
      case Aurora =>
      case Off =>
    }
  }

  /** Decode is the exact partial inverse of Encode. */
  lemma DecodeIsPartialInverse(cmd: Command, s: State)
    ensures Decode(cmd) == Ok(s) <==> Encode(s) == cmd
  {
    if Encode(s) == cmd {
      match s
      case Flash(c) => assert ColorOfByte(cmd[0]) == Some(c);
      case Static(c) => assert ColorOfByte(cmd[0]) == Some(c);
      case Aurora =>
      case Off => ColorBytesDistinct(Blue, Blue);
    }
  }

  /** Round trip: decoding the command of a state gives that state back. */
  lemma DecodeEncode(s: State)
    ensures Decode(Encode(s)) == Ok(s)
  {
    DecodeIsPartialInverse(Encode(s), s);
  }

  /** Decode fails exactly on the byte pairs that no state encodes to. */
  lemma DecodeFailsOutsideRange(cmd: Command)
    ensures Decode(cmd).Err? <==> forall s :: Encode(s) != cmd
  {
    if Decode(cmd).Ok? {
      DecodeIsPartialInverse(cmd, Decode(cmd).value);
    } else {
      forall s ensures Encode(s) != cmd {
        DecodeIsPartialInverse(cmd, s);
      }
    }
  }

  /** The status query is neither produced by Encode nor accepted by Decode. */
  lemma StatusIsNoState()
    ensures Decode(StatusCommand) == Err(InvalidCommand(StatusCommand))
    ensures forall s :: Encode(s) != StatusCommand
  {
  }

  lemma EncodeExamples()
    ensures Encode(Flash(Blue)) == [Ascii('B'), Ascii('*')]
    ensures Encode(Aurora) == [Ascii('A'), Ascii('<')]
    ensures Encode(Off) == [Ascii('X'), Ascii('X')]
    ensures Encode(Static(Red)) == [Ascii('R'), Ascii('!')]
  {
  }

  lemma DecodeRejects()
    ensures Decode([0, 0]).Err?
    ensures Decode([Ascii('B'), Ascii('?')]).Err?
    ensures Decode([Ascii('Z'), Ascii('*')]).Err?
    ensures Decode([Ascii('B'), Ascii('*')]) == Ok(Flash(Blue))
  {
  }

  datatype LedError = ReadFailed | Rejected(reply: byte)

  /** A client of the device over a serial port: the bytes written to the
      port so far, and the bytes the device has sent that are still unread. */
  class Led {
    var written: seq<byte>
    var unread: seq<byte>

    constructor (incoming: seq<byte>)
      ensures written == [] && unread == incoming
    {
      written := [];
      unread := incoming;
    }

    /** Send the command for `state` and read the one-byte reply; only `Y`
        is success. */
    method Set(state: State) returns (r: Outcome<LedError>)
      modifies this
      ensures written == old(written) + Encode(state)
      ensures old(unread) == [] ==> r == Fail(ReadFailed) && unread == []
      ensures old(unread) != [] ==> unread == old(unread)[1..]
      ensures old(unread) != [] ==>
        (r.Pass? <==> old(unread)[0] == Ascii('Y')) &&
        (r.Fail? ==> r.error == Rejected(old(unread)[0]))
    {
      var cmd := Encode(state);
      var output := new byte[1];
      written := written + cmd;
      if |unread| < 1 {
        return Fail(ReadFailed);
      }
      output[0] := unread[0];
      unread := unread[1..];
      if output[..] != [Ascii('Y')] {
        return Fail(Rejected(output[0]));
      }
      return Pass;
    }
  }
}
