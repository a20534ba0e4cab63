/**
  The reconnecting command reader `_read_remote_commands`
  (src/flashlight_state.py:36-64) as a state machine that is either
  Connecting or Terminated. The time spent reading one open connection is
  the inner loop, the method `ReadConnection`.

  The network is a finite script of connection attempts. Each attempt either
  fails to connect (a `ConnectionError`), is cancelled while connecting, or
  opens a connection that delivers some bytes and then ends with a clean end
  of stream, a reset, or a cancellation. Connections are numbered by their
  position in the script; a connection's number also names its writer. When
  the script runs out while the reader is about to connect again, the reader
  is still running and its state is Connecting.
*/
module RemoteCommands {
  import opened Base
  import opened Commands
  import opened Framing

  /** How an open connection stops delivering bytes. */
  datatype Ending =
    | PeerEof                // the peer closed the stream cleanly
    | PeerReset              // a connection error while waiting for bytes
    | CancelledWhileReading  // cancelled while waiting for bytes

  /** One call of `open_connection` and, if it succeeds, everything that connection delivers. */
  datatype ConnectAttempt =
    | Refused
    | CancelledWhileConnecting
    | Opened(data: string, ending: Ending)

  /** How the generator ended. */
  datatype Exit =
    | Returned   // the `while attempt <= max_reconnect_tries` loop ended; no error
    | Raised     // a connection error was re-raised
    | Cancelled  // cancellation was swallowed; no error
    | Exhausted  // the corrected reader used up its tries; an error

  datatype ReaderState = Connecting | Terminated(exit: Exit)

  /**
    How the attempt counter moves: as written it is never changed; the
    corrected reader counts every reconnect and fails once the tries are used up.
  */
  datatype Counting = AsWritten | PerReconnect

  /** What a clean end of stream adds to the counter. */
  function Advance(counting: Counting): nat {
    if counting == AsWritten then 0 else 1
  }

  /** How the reader ends once the counter exceeds `max_reconnect_tries`. */
  function OutOfTries(counting: Counting): Exit {
    if counting == AsWritten then Returned else Exhausted
  }

  /** What the generator did: the commands it yielded, where it stopped, the connections it opened (`conns`) and the writers it closed. */
  datatype Outcome = Outcome(yielded: seq<CommandDTO>, state: ReaderState, conns: seq<nat>, closed: seq<nat>)

  /** The default `max_reconnect_tries`, which `listen_to_commands` relies on. */
  const DefaultMaxReconnectTries: int := 5

  /** The commands of the frames that pass validation, in order; the others are skipped. */
  function Accepted(frames: seq<string>, decode: string -> Option<RawCommand>): (r: seq<CommandDTO>)
    ensures |r| <= |frames|
    ensures forall m <- r :: IsValid(m)
  {
    if frames == [] then []
    else
      var head := match ParseRaw(frames[0], decode)
                  case Success(m) => [m]
                  case Failure(_) => [];
      head + Accepted(frames[1..], decode)
  }

  /** The commands yielded while reading the bytes `data` of one connection. */
  function Drain(data: string, decode: string -> Option<RawCommand>): (r: seq<CommandDTO>)
    ensures |r| <= |Frames(data)|
    ensures forall m <- r :: IsValid(m)
  {
    Accepted(Frames(data), decode)
  }

  /** Reading one frame: its command, if it passes validation, comes before those of the bytes after it. */
  lemma DrainFrame(buf: string, frame: string, rest: string, decode: string -> Option<RawCommand>)
    requires ReadUntil(buf) == Some((frame, rest))
    ensures ParseRaw(frame, decode).Success? ==> Drain(buf, decode) == [ParseRaw(frame, decode).value] + Drain(rest, decode)
    ensures ParseRaw(frame, decode).Failure? ==> Drain(buf, decode) == Drain(rest, decode)
  {
    var fs := [frame] + Frames(rest);
    assert Frames(buf) == fs;
    assert fs[0] == frame && fs[1..] == Frames(rest);
    assert [] + Drain(rest, decode) == Drain(rest, decode);
  }

  /** Where the reader goes once an open connection stops delivering bytes. */
  function AfterConnection(ending: Ending): (r: ReaderState)
    ensures r == Connecting <==> ending == PeerEof
  {
    match ending
    case PeerEof => Connecting
    case PeerReset => Terminated(Raised)
    case CancelledWhileReading => Terminated(Cancelled)
  }

  /** The `finally` clause: the writer in hand, if any, is the one closed. */
  function Closing(writer: Option<nat>): (r: seq<nat>)
    ensures |r| <= 1 && (forall w <- r :: writer == Some(w))
    ensures writer.Some? ==> r != []
  {
    if writer.Some? then [writer.value] else []
  }

  /**
    The reader from attempt `i` of the script on, with the counter at `attempt`,
    having yielded `yielded`, opened the connections `conns` and holding
    `writer`. After a clean end of stream the counter grows as `counting` says.
  */
  function Run(maxTries: int, counting: Counting, script: seq<ConnectAttempt>, decode: string -> Option<RawCommand>,
               i: nat, attempt: int, yielded: seq<CommandDTO>, conns: seq<nat>, writer: Option<nat>): Outcome
    requires i <= |script|
    decreases |script| - i
  {
    if !(attempt <= maxTries) then Outcome(yielded, Terminated(OutOfTries(counting)), conns, Closing(writer))
    else if i == |script| then Outcome(yielded, Connecting, conns, [])
    else
      match script[i]
      case Refused => Outcome(yielded, Terminated(Raised), conns, Closing(writer))
      case CancelledWhileConnecting => Outcome(yielded, Terminated(Cancelled), conns, Closing(writer))
      case Opened(data, ending) =>
        var y := yielded + Drain(data, decode);
        match AfterConnection(ending)
        case Terminated(e) => Outcome(y, Terminated(e), conns + [i], [i])
        case Connecting => Run(maxTries, counting, script, decode, i + 1, attempt + Advance(counting), y, conns + [i], Some(i))
  }

  /** The reader as written: the counter starts at 1 and is never changed. */
  function ReadRemote(maxTries: int, script: seq<ConnectAttempt>, decode: string -> Option<RawCommand>): Outcome {
    Run(maxTries, AsWritten, script, decode, 0, 1, [], [], None)
  }

  /** The corrected reader: the counter grows by one on every reconnect, and running out of tries is an error. */
  function ReadRemoteBounded(maxTries: int, script: seq<ConnectAttempt>, decode: string -> Option<RawCommand>): Outcome {
    Run(maxTries, PerReconnect, script, decode, 0, 1, [], [], None)
  }

  /**
    The inner `while not reader.at_eof()` loop over one open connection:
    `readuntil(b"}")` takes the next frame, a frame that fails validation is
    skipped, an incomplete frame at a clean end of stream (an `EOFError`) ends
    the loop, and a reset or cancellation ends the reader.
  */
  method ReadConnection(data: string, ending: Ending, decode: string -> Option<RawCommand>)
    returns (cmds: seq<CommandDTO>, next: ReaderState)
    ensures cmds == Drain(data, decode)
    ensures next == AfterConnection(ending)
  {
    cmds := [];
    var pending := data;
    while !(pending == [] && ending.PeerEof?)
      invariant cmds + Drain(pending, decode) == Drain(data, decode)
      decreases |pending|
    {
      match ReadUntil(pending) {
        case None =>
          break;
        case Some((frame, rest)) =>
          DrainFrame(pending, frame, rest, decode);
          pending := rest;
          match ParseRaw(frame, decode) {
            case Success(cmd) =>
              Regroup(cmds, [cmd], Drain(rest, decode));
              cmds := cmds + [cmd];
            case Failure(_) =>
          }
      }
    }
    next := AfterConnection(ending);
  }

  /**
    `_read_remote_commands` as written: the counter is set to 1 and never
    incremented, so the outer loop either never runs or never stops by itself.
  */
  method ReadRemoteCommands(maxTries: int, script: seq<ConnectAttempt>, decode: string -> Option<RawCommand>)
    returns (out: Outcome)
    ensures out == ReadRemote(maxTries, script, decode)
  {
    var writer: Option<nat> := None;
    var yielded: seq<CommandDTO> := [];
    var conns: seq<nat> := [];
    var state := Connecting;
    var attempt := 1;
    var i := 0;
    while state == Connecting && attempt <= maxTries && i < |script|
      invariant 0 <= i <= |script|
      invariant attempt == 1
      invariant state == Connecting ==>
                  ReadRemote(maxTries, script, decode) == Run(maxTries, AsWritten, script, decode, i, attempt, yielded, conns, writer)
      invariant state.Terminated? ==>
                  ReadRemote(maxTries, script, decode) == Outcome(yielded, state, conns, Closing(writer))
    {
      match script[i] {
        case Refused =>
          state := Terminated(Raised);
        case CancelledWhileConnecting =>
          state := Terminated(Cancelled);
        case Opened(data, ending) =>
          writer := Some(i);
          conns := conns + [i];
          var cmds;
          cmds, state := ReadConnection(data, ending, decode);
          yielded := yielded + cmds;
      }
      i := i + 1;
    }
    if state == Connecting && !(attempt <= maxTries) {
      state := Terminated(Returned);
    }
    out := Outcome(yielded, state, conns, if state.Terminated? then Closing(writer) else []);
  }

  /**
    The corrected reader, not the source's behaviour: the counter grows by one
    after every clean end of stream, so at most `maxTries` connections are
    opened; once they are used up the reader fails with `Exhausted`.
  */
  method ReadRemoteCommandsBounded(maxTries: int, script: seq<ConnectAttempt>, decode: string -> Option<RawCommand>)
    returns (out: Outcome)
    ensures out == ReadRemoteBounded(maxTries, script, decode)
  {
    var writer: Option<nat> := None;
    var yielded: seq<CommandDTO> := [];
    var conns: seq<nat> := [];
    var state := Connecting;
    var attempt := 1;
    var i := 0;
    while state == Connecting && attempt <= maxTries && i < |script|
      invariant 0 <= i <= |script|
      invariant state == Connecting ==>
                  ReadRemoteBounded(maxTries, script, decode) == Run(maxTries, PerReconnect, script, decode, i, attempt, yielded, conns, writer)
      invariant state.Terminated? ==>
                  ReadRemoteBounded(maxTries, script, decode) == Outcome(yielded, state, conns, Closing(writer))
    {
      match script[i] {
        case Refused =>
          state := Terminated(Raised);
        case CancelledWhileConnecting =>
          state := Terminated(Cancelled);
        case Opened(data, ending) =>
          writer := Some(i);
          conns := conns + [i];
          var cmds;
          cmds, state := ReadConnection(data, ending, decode);
          yielded := yielded + cmds;
          if state == Connecting {
            attempt := attempt + 1;
          }
      }
      i := i + 1;
    }
    if state == Connecting && !(attempt <= maxTries) {
      state := Terminated(Exhausted);
    }
    out := Outcome(yielded, state, conns, if state.Terminated? then Closing(writer) else []);
  }
}
