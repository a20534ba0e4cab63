/**
  Properties of the reader `_read_remote_commands`
  (src/flashlight_state.py:36-64), stated on the functions `Run`,
  `ReadRemote` and `ReadRemoteBounded` that its methods are proved against.
*/
module ReaderProperties {
  import opened Base
  import opened Commands
  import opened Framing
  import opened RemoteCommands

  /** The writer in hand is the last connection opened. */
  predicate Tracks(conns: seq<nat>, writer: Option<nat>) {
    writer == if conns == [] then None else Some(conns[|conns| - 1])
  }

  /** The attempt is a connection that delivers bytes and then ends cleanly. */
  predicate IsEofConnection(a: ConnectAttempt) {
    a.Opened? && a.ending == PeerEof
  }

  /** How an attempt that is not a clean end of stream ends the reader. */
  function ExitOf(a: ConnectAttempt): (e: Exit)
    requires !IsEofConnection(a)
    ensures a.Opened? ==> AfterConnection(a.ending) == Terminated(e)
  {
    match a
    case Refused => Raised
    case CancelledWhileConnecting => Cancelled
    case Opened(_, ending) => if ending == PeerReset then Raised else Cancelled
  }

  /** The commands yielded while reading the connections `cs[n]`, `cs[n + 1]`, ... of the script, in order. */
  function Delivered(script: seq<ConnectAttempt>, cs: seq<nat>, n: nat, decode: string -> Option<RawCommand>): seq<CommandDTO>
    decreases |cs| - n
  {
    if n >= |cs| then []
    else
      var here := if cs[n] < |script| && script[cs[n]].Opened? then Drain(script[cs[n]].data, decode) else [];
      here + Delivered(script, cs, n + 1, decode)
  }

  /** A frame that fails validation yields nothing; reading goes on with the next bytes. */
  lemma InvalidFrameSkipped(f: string, rest: string, decode: string -> Option<RawCommand>)
    requires IsFrame(f) && ParseRaw(f, decode).Failure?
    ensures Drain(f + rest, decode) == Drain(rest, decode)
  {
    ReadUntilFrame(f, rest);
    assert Frames(f + rest) == [f] + Frames(rest);
    assert ([f] + Frames(rest))[1..] == Frames(rest);
  }

  /** A frame that passes validation is yielded, before everything that follows it. */
  lemma ValidFrameYielded(f: string, rest: string, decode: string -> Option<RawCommand>)
    requires IsFrame(f) && ParseRaw(f, decode).Success?
    ensures Drain(f + rest, decode) == [ParseRaw(f, decode).value] + Drain(rest, decode)
  {
    ReadUntilFrame(f, rest);
    assert Frames(f + rest) == [f] + Frames(rest);
    assert ([f] + Frames(rest))[1..] == Frames(rest);
  }

  /** With `max_reconnect_tries <= 0` the loop never runs: nothing is opened, yielded or closed; as written the generator returns, the corrected reader fails at once. */
  lemma NoTriesYieldsNothing(maxTries: int, script: seq<ConnectAttempt>, decode: string -> Option<RawCommand>)
    requires maxTries < 1
    ensures ReadRemote(maxTries, script, decode) == Outcome([], Terminated(Returned), [], [])
    ensures ReadRemoteBounded(maxTries, script, decode) == Outcome([], Terminated(Exhausted), [], [])
  {
  }

  /** A connection that ends cleanly hands over to the next attempt, its commands yielded and its number recorded. */
  lemma RunConnects(maxTries: int, counting: Counting, script: seq<ConnectAttempt>,
                    decode: string -> Option<RawCommand>, i: nat, attempt: int,
                    yielded: seq<CommandDTO>, conns: seq<nat>, writer: Option<nat>)
    requires Continues(maxTries, script, i, attempt)
    ensures Run(maxTries, counting, script, decode, i, attempt, yielded, conns, writer) ==
            Run(maxTries, counting, script, decode, i + 1, attempt + Advance(counting),
                yielded + Drain(script[i].data, decode), conns + [i], Some(i))
  {
  }

  /** The reader takes another connection after attempt `i`: it connected and the connection ended cleanly. */
  predicate Continues(maxTries: int, script: seq<ConnectAttempt>, i: nat, attempt: int) {
    attempt <= maxTries && i < |script| && script[i].Opened? && AfterConnection(script[i].ending) == Connecting
  }

  /** On every exit only the writer of the last connection opened is closed; while running nothing is closed. */
  lemma {:induction false} OnlyLastWriterClosed(maxTries: int, counting: Counting, script: seq<ConnectAttempt>,
                                                decode: string -> Option<RawCommand>, i: nat, attempt: int,
                                                yielded: seq<CommandDTO>, conns: seq<nat>, writer: Option<nat>)
    requires i <= |script| && Tracks(conns, writer)
    ensures var o := Run(maxTries, counting, script, decode, i, attempt, yielded, conns, writer);
            o.closed == if o.state.Terminated? && o.conns != [] then [o.conns[|o.conns| - 1]] else []
    decreases |script| - i, 1
  {
    if Continues(maxTries, script, i, attempt) {
      LastWriterThroughConnection(maxTries, counting, script, decode, i, attempt, yielded, conns, writer);
    } else {
      LastWriterAtStop(maxTries, counting, script, decode, i, attempt, yielded, conns, writer);
    }
  }

  lemma {:induction false} LastWriterThroughConnection(maxTries: int, counting: Counting, script: seq<ConnectAttempt>,
                                                       decode: string -> Option<RawCommand>, i: nat, attempt: int,
                                                       yielded: seq<CommandDTO>, conns: seq<nat>, writer: Option<nat>)
    requires Continues(maxTries, script, i, attempt)
    ensures var o := Run(maxTries, counting, script, decode, i, attempt, yielded, conns, writer);
            o.closed == if o.state.Terminated? && o.conns != [] then [o.conns[|o.conns| - 1]] else []
    decreases |script| - i, 0
  {
    var next := conns + [i];
    assert next[|next| - 1] == i;
    RunConnects(maxTries, counting, script, decode, i, attempt, yielded, conns, writer);
    OnlyLastWriterClosed(maxTries, counting, script, decode, i + 1, attempt + Advance(counting),
                         yielded + Drain(script[i].data, decode), next, Some(i));
  }

  /** Where the reader stops, it closes the writer in hand, or that of the connection that just ended it. */
  lemma LastWriterAtStop(maxTries: int, counting: Counting, script: seq<ConnectAttempt>,
                         decode: string -> Option<RawCommand>, i: nat, attempt: int,
                         yielded: seq<CommandDTO>, conns: seq<nat>, writer: Option<nat>)
    requires i <= |script| && Tracks(conns, writer) && !Continues(maxTries, script, i, attempt)
    ensures var o := Run(maxTries, counting, script, decode, i, attempt, yielded, conns, writer);
            o.closed == if o.state.Terminated? && o.conns != [] then [o.conns[|o.conns| - 1]] else []
  {
    var next := conns + [i];
    assert next[|next| - 1] == i;
  }

  /** The reader only appends to the connections opened, and those it appends are the consecutive attempts from `i` on, each one an attempt that connected. */
  lemma {:induction false} ConnsExtend(maxTries: int, counting: Counting, script: seq<ConnectAttempt>,
                                       decode: string -> Option<RawCommand>, i: nat, attempt: int,
                                       yielded: seq<CommandDTO>, conns: seq<nat>, writer: Option<nat>)
    requires i <= |script|
    ensures var o := Run(maxTries, counting, script, decode, i, attempt, yielded, conns, writer);
            |conns| <= |o.conns| && o.conns[..|conns|] == conns &&
            forall k :: |conns| <= k < |o.conns| ==> o.conns[k] == i + (k - |conns|) && o.conns[k] < |script| && script[o.conns[k]].Opened?
    decreases |script| - i, 1
  {
    if Continues(maxTries, script, i, attempt) {
      ConnsThroughConnection(maxTries, counting, script, decode, i, attempt, yielded, conns, writer);
    }
  }

  lemma {:induction false} ConnsThroughConnection(maxTries: int, counting: Counting, script: seq<ConnectAttempt>,
                                                  decode: string -> Option<RawCommand>, i: nat, attempt: int,
                                                  yielded: seq<CommandDTO>, conns: seq<nat>, writer: Option<nat>)
    requires Continues(maxTries, script, i, attempt)
    ensures var o := Run(maxTries, counting, script, decode, i, attempt, yielded, conns, writer);
            |conns| <= |o.conns| && o.conns[..|conns|] == conns &&
            forall k :: |conns| <= k < |o.conns| ==> o.conns[k] == i + (k - |conns|) && o.conns[k] < |script| && script[o.conns[k]].Opened?
    decreases |script| - i, 0
  {
    var y := yielded + Drain(script[i].data, decode);
    ConnsExtend(maxTries, counting, script, decode, i + 1, attempt + Advance(counting), y, conns + [i], Some(i));
    RunConnects(maxTries, counting, script, decode, i, attempt, yielded, conns, writer);
    var o := Run(maxTries, counting, script, decode, i + 1, attempt + Advance(counting), y, conns + [i], Some(i));
    PrefixOfExtension(o.conns, conns, i);
    forall k | |conns| <= k < |o.conns|
      ensures o.conns[k] == i + (k - |conns|) && o.conns[k] < |script| && script[o.conns[k]].Opened?
    {
      if k == |conns| {
        assert o.conns[k] == i;
      }
    }
  }

  /** The prefix part of `ConnsExtend` alone. */
  lemma ConnsPrefix(maxTries: int, counting: Counting, script: seq<ConnectAttempt>,
                    decode: string -> Option<RawCommand>, i: nat, attempt: int,
                    yielded: seq<CommandDTO>, conns: seq<nat>, writer: Option<nat>)
    requires i <= |script|
    ensures var o := Run(maxTries, counting, script, decode, i, attempt, yielded, conns, writer);
            |conns| <= |o.conns| && o.conns[..|conns|] == conns
  {
    ConnsExtend(maxTries, counting, script, decode, i, attempt, yielded, conns, writer);
  }

  lemma PrefixOfExtension(cs: seq<nat>, conns: seq<nat>, i: nat)
    requires |conns + [i]| <= |cs| && cs[..|conns + [i]|] == conns + [i]
    ensures cs[..|conns|] == conns && cs[|conns|] == i
  {
    assert cs[..|conns|] == cs[..|conns| + 1][..|conns|];
    assert cs[|conns|] == cs[..|conns| + 1][|conns|];
  }

  /** Whatever ends the reader, the commands it yields are those of the connections it opened, each drained once, in order. */
  lemma {:induction false} YieldsEachConnectionOnce(maxTries: int, counting: Counting, script: seq<ConnectAttempt>,
                                                    decode: string -> Option<RawCommand>, i: nat, attempt: int,
                                                    yielded: seq<CommandDTO>, conns: seq<nat>, writer: Option<nat>)
    requires i <= |script|
    ensures var o := Run(maxTries, counting, script, decode, i, attempt, yielded, conns, writer);
            |conns| <= |o.conns| && o.yielded == yielded + Delivered(script, o.conns, |conns|, decode)
    decreases |script| - i, 1
  {
    if Continues(maxTries, script, i, attempt) {
      YieldsThroughConnection(maxTries, counting, script, decode, i, attempt, yielded, conns, writer);
    } else {
      YieldsLastOrNothing(maxTries, counting, script, decode, i, attempt, yielded, conns, writer);
    }
  }

  /** A connection that ends cleanly: its commands come first, then those of the connections opened after it. */
  lemma {:induction false} YieldsThroughConnection(maxTries: int, counting: Counting, script: seq<ConnectAttempt>,
                                                   decode: string -> Option<RawCommand>, i: nat, attempt: int,
                                                   yielded: seq<CommandDTO>, conns: seq<nat>, writer: Option<nat>)
    requires Continues(maxTries, script, i, attempt)
    ensures var o := Run(maxTries, counting, script, decode, i, attempt, yielded, conns, writer);
            |conns| <= |o.conns| && o.yielded == yielded + Delivered(script, o.conns, |conns|, decode)
    decreases |script| - i, 0
  {
    YieldsEachConnectionOnce(maxTries, counting, script, decode, i + 1, attempt + Advance(counting),
                             yielded + Drain(script[i].data, decode), conns + [i], Some(i));
    ConnectionThenRest(maxTries, counting, script, decode, i, attempt, yielded, conns, writer);
  }

  /** The step of the proof above: given what the next attempts yield, add the connection just drained in front. */
  lemma ConnectionThenRest(maxTries: int, counting: Counting, script: seq<ConnectAttempt>,
                           decode: string -> Option<RawCommand>, i: nat, attempt: int,
                           yielded: seq<CommandDTO>, conns: seq<nat>, writer: Option<nat>)
    requires Continues(maxTries, script, i, attempt)
    requires var o := Run(maxTries, counting, script, decode, i + 1, attempt + Advance(counting),
                          yielded + Drain(script[i].data, decode), conns + [i], Some(i));
             |conns + [i]| <= |o.conns| &&
             o.yielded == (yielded + Drain(script[i].data, decode)) + Delivered(script, o.conns, |conns + [i]|, decode)
    ensures var o := Run(maxTries, counting, script, decode, i, attempt, yielded, conns, writer);
            |conns| <= |o.conns| && o.yielded == yielded + Delivered(script, o.conns, |conns|, decode)
  {
    var d := Drain(script[i].data, decode);
    RunConnects(maxTries, counting, script, decode, i, attempt, yielded, conns, writer);
    var o := Run(maxTries, counting, script, decode, i + 1, attempt + Advance(counting), yielded + d, conns + [i], Some(i));
    ConnsPrefix(maxTries, counting, script, decode, i + 1, attempt + Advance(counting), yielded + d, conns + [i], Some(i));
    PrefixOfExtension(o.conns, conns, i);
    assert Delivered(script, o.conns, |conns|, decode) == d + Delivered(script, o.conns, |conns| + 1, decode);
    Regroup(yielded, d, Delivered(script, o.conns, |conns| + 1, decode));
  }

  /** The reader stops here: nothing more is yielded, or the commands of the one connection that ends it. */
  lemma YieldsLastOrNothing(maxTries: int, counting: Counting, script: seq<ConnectAttempt>,
                            decode: string -> Option<RawCommand>, i: nat, attempt: int,
                            yielded: seq<CommandDTO>, conns: seq<nat>, writer: Option<nat>)
    requires i <= |script|
    requires !Continues(maxTries, script, i, attempt)
    ensures var o := Run(maxTries, counting, script, decode, i, attempt, yielded, conns, writer);
            |conns| <= |o.conns| <= |conns| + 1 && o.yielded == yielded + Delivered(script, o.conns, |conns|, decode)
  {
  }

  /** Every yielded command passed validation. */
  lemma {:induction false} YieldedAreValid(maxTries: int, counting: Counting, script: seq<ConnectAttempt>,
                                           decode: string -> Option<RawCommand>, i: nat, attempt: int,
                                           yielded: seq<CommandDTO>, conns: seq<nat>, writer: Option<nat>)
    requires i <= |script|
    requires forall m <- yielded :: IsValid(m)
    ensures forall m <- Run(maxTries, counting, script, decode, i, attempt, yielded, conns, writer).yielded :: IsValid(m)
    decreases |script| - i
  {
    if Continues(maxTries, script, i, attempt) {
      var d := Drain(script[i].data, decode);
      RunConnects(maxTries, counting, script, decode, i, attempt, yielded, conns, writer);
      ValidConcat(yielded, d);
      YieldedAreValid(maxTries, counting, script, decode, i + 1, attempt + Advance(counting),
                      yielded + d, conns + [i], Some(i));
    } else {
      ValidAtStop(maxTries, counting, script, decode, i, attempt, yielded, conns, writer);
    }
  }

  /** Where the reader stops, it adds at most the valid commands of the connection that ends it. */
  lemma ValidAtStop(maxTries: int, counting: Counting, script: seq<ConnectAttempt>,
                    decode: string -> Option<RawCommand>, i: nat, attempt: int,
                    yielded: seq<CommandDTO>, conns: seq<nat>, writer: Option<nat>)
    requires i <= |script| && !Continues(maxTries, script, i, attempt)
    requires forall m <- yielded :: IsValid(m)
    ensures forall m <- Run(maxTries, counting, script, decode, i, attempt, yielded, conns, writer).yielded :: IsValid(m)
  {
    if attempt <= maxTries && i < |script| && script[i].Opened? {
      ValidConcat(yielded, Drain(script[i].data, decode));
    }
  }

  lemma ValidConcat(a: seq<CommandDTO>, b: seq<CommandDTO>)
    requires forall m <- a :: IsValid(m)
    requires forall m <- b :: IsValid(m)
    ensures forall m <- a + b :: IsValid(m)
  {
  }

  /** As written, once the loop has started it never ends by itself: the reader stops only by an error or a cancellation. */
  lemma {:induction false} AsWrittenNeverReturns(maxTries: int, script: seq<ConnectAttempt>,
                                                 decode: string -> Option<RawCommand>, i: nat, attempt: int,
                                                 yielded: seq<CommandDTO>, conns: seq<nat>, writer: Option<nat>)
    requires i <= |script| && attempt <= maxTries
    ensures Run(maxTries, AsWritten, script, decode, i, attempt, yielded, conns, writer).state != Terminated(Returned)
    decreases |script| - i
  {
    if Continues(maxTries, script, i, attempt) {
      AsWrittenNeverReturns(maxTries, script, decode, i + 1, attempt,
                            yielded + Drain(script[i].data, decode), conns + [i], Some(i));
    }
  }

  /** As written, every clean end of stream leads to a fresh connection: with only such connections, all are opened and the reader is still connecting. */
  lemma {:induction false} EveryEofReconnects(maxTries: int, script: seq<ConnectAttempt>,
                                              decode: string -> Option<RawCommand>, i: nat, attempt: int,
                                              yielded: seq<CommandDTO>, conns: seq<nat>, writer: Option<nat>)
    requires i <= |script| && attempt <= maxTries
    requires forall j :: i <= j < |script| ==> IsEofConnection(script[j])
    ensures var o := Run(maxTries, AsWritten, script, decode, i, attempt, yielded, conns, writer);
            o.state == Connecting && |o.conns| == |conns| + |script| - i && o.closed == []
    decreases |script| - i
  {
    if i < |script| {
      EveryEofReconnects(maxTries, script, decode, i + 1, attempt,
                         yielded + Drain(script[i].data, decode), conns + [i], Some(i));
    }
  }

  /** As written, the first attempt that is not a clean end of stream decides how the reader ends: a connection error is re-raised, a cancellation ends it without error. */
  lemma {:induction false} FirstFailureDecidesExit(maxTries: int, script: seq<ConnectAttempt>,
                                                   decode: string -> Option<RawCommand>, i: nat, k: nat, attempt: int,
                                                   yielded: seq<CommandDTO>, conns: seq<nat>, writer: Option<nat>)
    requires i <= k < |script| && attempt <= maxTries
    requires forall j :: i <= j < k ==> IsEofConnection(script[j])
    requires !IsEofConnection(script[k])
    ensures Run(maxTries, AsWritten, script, decode, i, attempt, yielded, conns, writer).state == Terminated(ExitOf(script[k]))
    decreases k - i, 1
  {
    if i < k {
      FailureAfterConnection(maxTries, script, decode, i, k, attempt, yielded, conns, writer);
    } else {
      StopsAtFailure(maxTries, script, decode, i, attempt, yielded, conns, writer);
    }
  }

  lemma {:induction false} FailureAfterConnection(maxTries: int, script: seq<ConnectAttempt>,
                                                  decode: string -> Option<RawCommand>, i: nat, k: nat, attempt: int,
                                                  yielded: seq<CommandDTO>, conns: seq<nat>, writer: Option<nat>)
    requires i < k < |script| && attempt <= maxTries
    requires forall j :: i <= j < k ==> IsEofConnection(script[j])
    requires !IsEofConnection(script[k])
    ensures Run(maxTries, AsWritten, script, decode, i, attempt, yielded, conns, writer).state == Terminated(ExitOf(script[k]))
    decreases k - i, 0
  {
    assert IsEofConnection(script[i]);
    var y := yielded + Drain(script[i].data, decode);
    RunConnects(maxTries, AsWritten, script, decode, i, attempt, yielded, conns, writer);
    assert attempt + Advance(AsWritten) == attempt;
    FirstFailureDecidesExit(maxTries, script, decode, i + 1, k, attempt, y, conns + [i], Some(i));
  }

  /** An attempt that is not a clean end of stream ends the reader at once, as `ExitOf` says. */
  lemma StopsAtFailure(maxTries: int, script: seq<ConnectAttempt>,
                       decode: string -> Option<RawCommand>, i: nat, attempt: int,
                       yielded: seq<CommandDTO>, conns: seq<nat>, writer: Option<nat>)
    requires i < |script| && attempt <= maxTries && !IsEofConnection(script[i])
    ensures Run(maxTries, AsWritten, script, decode, i, attempt, yielded, conns, writer).state == Terminated(ExitOf(script[i]))
  {
  }

  /** The bounded variant opens at most as many connections as the counter has left. */
  lemma {:induction false} BoundedOpensAtMost(maxTries: int, script: seq<ConnectAttempt>,
                                              decode: string -> Option<RawCommand>, i: nat, attempt: int,
                                              yielded: seq<CommandDTO>, conns: seq<nat>, writer: Option<nat>)
    requires i <= |script|
    ensures |Run(maxTries, PerReconnect, script, decode, i, attempt, yielded, conns, writer).conns| <= |conns| + Max(0, maxTries - attempt + 1)
    decreases |script| - i
  {
    if Continues(maxTries, script, i, attempt) {
      RunConnects(maxTries, PerReconnect, script, decode, i, attempt, yielded, conns, writer);
      BoundedOpensAtMost(maxTries, script, decode, i + 1, attempt + 1,
                         yielded + Drain(script[i].data, decode), conns + [i], Some(i));
    }
  }

  /** The corrected reader gives up: with more clean-ending connections on offer than the counter allows, it fails with `Exhausted`. */
  lemma {:induction false} BoundedGivesUp(maxTries: int, script: seq<ConnectAttempt>,
                                          decode: string -> Option<RawCommand>, i: nat, attempt: int,
                                          yielded: seq<CommandDTO>, conns: seq<nat>, writer: Option<nat>)
    requires i <= |script| && |script| - i > maxTries - attempt
    requires forall j :: i <= j < |script| ==> IsEofConnection(script[j])
    ensures Run(maxTries, PerReconnect, script, decode, i, attempt, yielded, conns, writer).state == Terminated(Exhausted)
    decreases |script| - i
  {
    if attempt <= maxTries {
      RunConnects(maxTries, PerReconnect, script, decode, i, attempt, yielded, conns, writer);
      BoundedGivesUp(maxTries, script, decode, i + 1, attempt + 1,
                     yielded + Drain(script[i].data, decode), conns + [i], Some(i));
    }
  }

  /** Only the reader as written can end by simply returning; the corrected reader ends with an error, a cancellation, or not at all. */
  lemma {:induction false} OnlyAsWrittenReturns(maxTries: int, counting: Counting, script: seq<ConnectAttempt>,
                                                decode: string -> Option<RawCommand>, i: nat, attempt: int,
                                                yielded: seq<CommandDTO>, conns: seq<nat>, writer: Option<nat>)
    requires i <= |script|
    ensures Run(maxTries, counting, script, decode, i, attempt, yielded, conns, writer).state == Terminated(Returned) ==>
              counting == AsWritten
    decreases |script| - i
  {
    if Continues(maxTries, script, i, attempt) {
      OnlyAsWrittenReturns(maxTries, counting, script, decode, i + 1, attempt + Advance(counting),
                           yielded + Drain(script[i].data, decode), conns + [i], Some(i));
    }
  }

  /** Whole-run form: only the last writer is closed, yielded commands are valid and come from the opened connections in order. */
  lemma ReadRemoteFacts(maxTries: int, script: seq<ConnectAttempt>, decode: string -> Option<RawCommand>)
    ensures var o := ReadRemote(maxTries, script, decode);
            (o.closed == if o.state.Terminated? && o.conns != [] then [o.conns[|o.conns| - 1]] else []) &&
            (forall m <- o.yielded :: IsValid(m)) &&
            (forall k :: 0 <= k < |o.conns| ==> o.conns[k] == k) &&
            (forall c <- o.conns :: c < |script| && script[c].Opened?) &&
            o.yielded == Delivered(script, o.conns, 0, decode) &&
            (1 <= maxTries ==> o.state != Terminated(Returned))
  {
    OnlyLastWriterClosed(maxTries, AsWritten, script, decode, 0, 1, [], [], None);
    ConnsExtend(maxTries, AsWritten, script, decode, 0, 1, [], [], None);
    YieldsEachConnectionOnce(maxTries, AsWritten, script, decode, 0, 1, [], [], None);
    YieldedAreValid(maxTries, AsWritten, script, decode, 0, 1, [], [], None);
    if 1 <= maxTries {
      AsWrittenNeverReturns(maxTries, script, decode, 0, 1, [], [], None);
    }
  }

  /** Whole-run form of the corrected reader: the same facts, at most `maxTries` connections are opened, and it never simply returns. */
  lemma ReadRemoteBoundedFacts(maxTries: int, script: seq<ConnectAttempt>, decode: string -> Option<RawCommand>)
    ensures var o := ReadRemoteBounded(maxTries, script, decode);
            (o.closed == if o.state.Terminated? && o.conns != [] then [o.conns[|o.conns| - 1]] else []) &&
            (forall m <- o.yielded :: IsValid(m)) &&
            (forall k :: 0 <= k < |o.conns| ==> o.conns[k] == k) &&
            (forall c <- o.conns :: c < |script| && script[c].Opened?) &&
            o.yielded == Delivered(script, o.conns, 0, decode) &&
            |o.conns| <= Max(0, maxTries) &&
            o.state != Terminated(Returned)
  {
    OnlyLastWriterClosed(maxTries, PerReconnect, script, decode, 0, 1, [], [], None);
    ConnsExtend(maxTries, PerReconnect, script, decode, 0, 1, [], [], None);
    YieldsEachConnectionOnce(maxTries, PerReconnect, script, decode, 0, 1, [], [], None);
    YieldedAreValid(maxTries, PerReconnect, script, decode, 0, 1, [], [], None);
    BoundedOpensAtMost(maxTries, script, decode, 0, 1, [], [], None);
    OnlyAsWrittenReturns(maxTries, PerReconnect, script, decode, 0, 1, [], [], None);
  }

  /** Six connections that each end cleanly: as written, all six are opened under a limit of five and the reader keeps going; the corrected reader fails after at most five. */
  lemma AsWrittenIgnoresLimit(decode: string -> Option<RawCommand>)
    ensures var script := seq(6, _ => Opened("", PeerEof));
            var o := ReadRemote(5, script, decode);
            var b := ReadRemoteBounded(5, script, decode);
            |o.conns| == 6 && o.state == Connecting &&
            |b.conns| <= 5 && b.state == Terminated(Exhausted)
  {
    var script := seq(6, _ => Opened("", PeerEof));
    EveryEofReconnects(5, script, decode, 0, 1, [], [], None);
    BoundedOpensAtMost(5, script, decode, 0, 1, [], [], None);
    BoundedGivesUp(5, script, decode, 0, 1, [], [], None);
  }
}
