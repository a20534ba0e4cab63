/**
  The test feed of the mock command server (src/mock_commands_server.py):
  its list of four commands and the text each is written as, and what the
  reader, the reducer and the state report make of that feed.

  The text of a command is pydantic's `.json()` of the record: the two
  fields in order, the kind's string value, and the metadata as a float
  (`16738740.0`) or `null`.
*/
module MockServer {
  import opened Base
  import opened Commands
  import opened Framing
  import opened RemoteCommands
  import opened Reducer
  import opened App

  /** `commands_to_broadcast`: COLOR 0xFF69B4, ON, COLOR 0x00BFFF, OFF. */
  const MockCommands: seq<CommandDTO> := [
    CommandDTO("COLOR", Some(0xFF69B4)),
    CommandDTO("ON", None),
    CommandDTO("COLOR", Some(0x00BFFF)),
    CommandDTO("OFF", None)
  ]

  function DecimalDigit(d: nat): (c: char)
    requires d < 10
    ensures '0' <= c <= '9'
  {
    ('0' as int + d) as char
  }

  /** The decimal digits of `n`, most significant first. */
  function Decimal(n: nat): (r: string)
    ensures |r| >= 1 && forall i :: 0 <= i < |r| ==> '0' <= r[i] <= '9'
    decreases n
  {
    if n < 10 then [DecimalDigit(n)] else Decimal(n / 10) + [DecimalDigit(n % 10)]
  }

  /**
    A whole number written as a JSON float, as Python writes it for a
    magnitude of at most 2^53; above that the float conversion rounds.
  */
  function JsonNumber(v: int): (r: string)
    ensures Delimiter !in r
    ensures |r| >= 3 && r[|r| - 2..] == ".0"
  {
    (if v < 0 then "-" else "") + Decimal(if v < 0 then -v else v) + ".0"
  }

  function JsonMetadata(metadata: Option<int>): (r: string)
    ensures Delimiter !in r
  {
    match metadata
    case None => "null"
    case Some(v) => JsonNumber(v)
  }

  /** `command.json()`: one JSON object, whose only `}` is the closing one. */
  function Serialize(m: CommandDTO): (r: string)
    requires Delimiter !in m.command
    ensures IsFrame(r)
  {
    var body := "{\"command\": \"" + m.command + "\", \"metadata\": " + JsonMetadata(m.metadata);
    assert Delimiter !in body;
    var r := body + "}";
    assert r[..|r| - 1] == body;
    r
  }

  predicate Writable(ms: seq<CommandDTO>) {
    forall k :: 0 <= k < |ms| ==> Delimiter !in ms[k].command
  }

  /** The texts of the commands, one per command, in order. */
  function SerializeAll(ms: seq<CommandDTO>): (r: seq<string>)
    requires Writable(ms)
    ensures |r| == |ms|
    ensures forall k :: 0 <= k < |ms| ==> r[k] == Serialize(ms[k])
  {
    if ms == [] then [] else [Serialize(ms[0])] + SerializeAll(ms[1..])
  }

  /** The bytes the server writes for `ms`, back to back with nothing in between. */
  function Wire(ms: seq<CommandDTO>): string
    requires Writable(ms)
  {
    Concat(SerializeAll(ms))
  }

  /** `decode` reads back every field of each command of `ms` from its text. */
  predicate DecodesBack(ms: seq<CommandDTO>, decode: string -> Option<RawCommand>)
    requires Writable(ms)
  {
    forall k :: 0 <= k < |ms| ==> decode(Serialize(ms[k])) == Some(RawCommand(ms[k].command, ms[k].metadata))
  }

  /** The server's bytes, followed by an incomplete frame, split back into one frame per command. */
  lemma WireSplits(ms: seq<CommandDTO>, tail: string)
    requires Writable(ms) && Delimiter !in tail
    ensures Frames(Wire(ms) + tail) == SerializeAll(ms)
    ensures Remainder(Wire(ms) + tail) == tail
  {
    var fs := SerializeAll(ms);
    assert AllFrames(fs);
    FramesOfConcat(fs, tail);
  }

  lemma {:induction false} AcceptedOfSerialized(ms: seq<CommandDTO>, decode: string -> Option<RawCommand>)
    requires Writable(ms) && AllValid(ms) && DecodesBack(ms, decode)
    ensures Accepted(SerializeAll(ms), decode) == ms
  {
    if ms != [] {
      var rest := ms[1..];
      TailFacts(ms, decode);
      AcceptedOfSerialized(rest, decode);
      ParsesBack(ms[0], decode);
      var fs := SerializeAll(ms);
      assert fs == [Serialize(ms[0])] + SerializeAll(rest);
      AcceptedCons(Serialize(ms[0]), SerializeAll(rest), decode);
      assert ms == [ms[0]] + rest;
    }
  }

  lemma TailFacts(ms: seq<CommandDTO>, decode: string -> Option<RawCommand>)
    requires Writable(ms) && AllValid(ms) && DecodesBack(ms, decode) && ms != []
    ensures Delimiter !in ms[0].command && IsValid(ms[0])
    ensures decode(Serialize(ms[0])) == Some(RawCommand(ms[0].command, ms[0].metadata))
    ensures Writable(ms[1..]) && AllValid(ms[1..]) && DecodesBack(ms[1..], decode)
  {
    var rest := ms[1..];
    forall k | 0 <= k < |rest|
      ensures Delimiter !in rest[k].command && IsValid(rest[k])
      ensures decode(Serialize(rest[k])) == Some(RawCommand(rest[k].command, rest[k].metadata))
    {
      assert rest[k] == ms[k + 1];
    }
  }

  lemma ParsesBack(m: CommandDTO, decode: string -> Option<RawCommand>)
    requires Delimiter !in m.command && IsValid(m)
    requires decode(Serialize(m)) == Some(RawCommand(m.command, m.metadata))
    ensures ParseRaw(Serialize(m), decode) == Success(m)
  {
  }

  lemma AcceptedCons(f: string, fs: seq<string>, decode: string -> Option<RawCommand>)
    requires ParseRaw(f, decode).Success?
    ensures Accepted([f] + fs, decode) == [ParseRaw(f, decode).value] + Accepted(fs, decode)
  {
    assert ([f] + fs)[0] == f && ([f] + fs)[1..] == fs;
  }

  /**
    Valid commands written back to back reach the reader as the same commands
    in the same order, when decoding reads back what was written; an
    incomplete frame left at the end yields nothing.
  */
  lemma WireYieldsCommands(ms: seq<CommandDTO>, tail: string, decode: string -> Option<RawCommand>)
    requires Writable(ms) && AllValid(ms) && DecodesBack(ms, decode)
    requires Delimiter !in tail
    ensures Drain(Wire(ms) + tail, decode) == ms
  {
    WireSplits(ms, tail);
    AcceptedOfSerialized(ms, decode);
  }

  lemma MockCommandsAreValid()
    ensures Writable(MockCommands) && AllValid(MockCommands)
  {
  }

  /**
    From any state, the mock sequence ends with the flashlight off and the
    colour 0x00BFFF, after exactly four notifications, in order.
  */
  lemma MockSequence(s: DeviceState)
    ensures AllHaveColor(MockCommands)
    ensures ReduceAll(s, MockCommands) == DeviceState(false, 0x00BFFF)
    ensures Notified(s, MockCommands) == [
              DeviceState(s.isOn, 0xFF69B4),
              DeviceState(true, 0xFF69B4),
              DeviceState(true, 0x00BFFF),
              DeviceState(false, 0x00BFFF)
            ]
  {
    var a, b, c, d := MockCommands[0], MockCommands[1], MockCommands[2], MockCommands[3];
    assert MockCommands == [a, b, c] + [d];
    assert [a, b, c] == [a, b] + [c];
    assert [a, b] == [a] + [b];
    assert [a] == [] + [a];
    Snoc(s, [], a);
    Snoc(s, [a], b);
    Snoc(s, [a, b], c);
    Snoc(s, [a, b, c], d);
  }

  /** Starting from the defaults, the clients receive `#ff69b4` twice, then `#00bfff` twice, the last one reporting off. */
  lemma MockReports()
    ensures AllHaveColor(MockCommands)
    ensures Sent(DefaultState, MockCommands, true) == [
              StateReport(true, "#ff69b4"),
              StateReport(true, "#ff69b4"),
              StateReport(true, "#00bfff"),
              StateReport(false, "#00bfff")
            ]
  {
    MockSequence(DefaultState);
    var pink, blueOn, blueOff := DeviceState(true, 0xFF69B4), DeviceState(true, 0x00BFFF), DeviceState(false, 0x00BFFF);
    ReportsOfFour(pink, pink, blueOn, blueOff);
    HexFormat.MockColorStrings();
  }

  lemma ReportsOfFour(a: DeviceState, b: DeviceState, c: DeviceState, d: DeviceState)
    ensures Reports([a, b, c, d]) == [GetCurrentState(a), GetCurrentState(b), GetCurrentState(c), GetCurrentState(d)]
  {
    ReportsPointwise([a, b, c, d]);
  }

  /**
    One connection that delivers the server's bytes for `ms`: if it then ends
    cleanly the reader has yielded `ms` in order and is about to connect
    again; if it is reset the reader re-raises, closing that connection's
    writer.
  */
  lemma {:induction false} OneConnection(ms: seq<CommandDTO>, decode: string -> Option<RawCommand>)
    requires Writable(ms) && AllValid(ms) && DecodesBack(ms, decode)
    ensures ReadRemote(DefaultMaxReconnectTries, [Opened(Wire(ms), PeerEof)], decode)
            == Outcome(ms, Connecting, [0], [])
    ensures ReadRemote(DefaultMaxReconnectTries, [Opened(Wire(ms), PeerReset)], decode)
            == Outcome(ms, Terminated(Raised), [0], [0])
    ensures ReadRemoteBounded(DefaultMaxReconnectTries, [Opened(Wire(ms), PeerEof)], decode)
            == Outcome(ms, Connecting, [0], [])
  {
    WireYieldsCommands(ms, [], decode);
    assert Wire(ms) + [] == Wire(ms);
    assert [] + ms == ms;
    var script := [Opened(Wire(ms), PeerEof)];
    assert Drain(Wire(ms), decode) == ms;
    assert ([] + [0]) == [0];
    assert ReadRemote(DefaultMaxReconnectTries, script, decode) == Run(DefaultMaxReconnectTries, AsWritten, script, decode, 1, 1, [] + Drain(Wire(ms), decode), [] + [0], Some(0));
    assert Run(DefaultMaxReconnectTries, AsWritten, script, decode, 1, 1, ms, [0], Some(0)) == Outcome(ms, Connecting, [0], []);
    assert ReadRemoteBounded(DefaultMaxReconnectTries, script, decode) == Run(DefaultMaxReconnectTries, PerReconnect, script, decode, 1, 2, [] + Drain(Wire(ms), decode), [] + [0], Some(0));
    assert Run(DefaultMaxReconnectTries, PerReconnect, script, decode, 1, 2, ms, [0], Some(0)) == Outcome(ms, Connecting, [0], []);
  }

  /** The mock server's four commands over one connection reach the reader unchanged and in order. */
  lemma MockConnection(decode: string -> Option<RawCommand>)
    requires Writable(MockCommands) && DecodesBack(MockCommands, decode)
    ensures ReadRemote(DefaultMaxReconnectTries, [Opened(Wire(MockCommands), PeerEof)], decode)
            == Outcome(MockCommands, Connecting, [0], [])
    ensures ReadRemoteBounded(DefaultMaxReconnectTries, [Opened(Wire(MockCommands), PeerEof)], decode)
            == Outcome(MockCommands, Connecting, [0], [])
  {
    MockCommandsAreValid();
    OneConnection(MockCommands, decode);
  }
}
