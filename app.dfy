/**
  The application side (src/app.py): the state report `get_current_state`,
  the default state, the set of websocket clients that the websocket handler
  adds itself to and removes itself from, `broadcast`, and the reducer loop
  of `listen_to_commands` (src/flashlight_state.py:67-89) running against the
  shared application state.

  Websocket sends are recorded in `inbox`, one entry per send; the
  notification hook's snapshots are recorded in `notifications`.
*/
module App {
  import opened Base
  import opened Commands
  import opened HexFormat
  import opened RemoteCommands
  import opened Reducer
  import ReaderProperties

  /** A websocket connection, by identity. */
  type ClientId = nat

  /** The JSON object `get_current_state` returns. */
  datatype StateReport = StateReport(isTurnedOn: bool, color: string)

  /** The state at start-up: on, and the colour sentinel 0xdeadbeef, which is outside 24 bits. */
  const DefaultState: DeviceState := DeviceState(true, 0xdeadbeef)

  /** `get_current_state`: the on flag and the colour text of a state. */
  function GetCurrentState(s: DeviceState): StateReport {
    StateReport(s.isOn, ColorString(s.color))
  }

  /**
    The report carries the on flag as a boolean and the colour as `#` and
    lower-case hex, at least six digits, never truncated, reading back as the
    colour.
  */
  lemma ReportFormat(s: DeviceState)
    ensures GetCurrentState(s).isTurnedOn == s.isOn
    ensures |GetCurrentState(s).color| >= 7 && GetCurrentState(s).color[0] == '#'
    ensures s.color >= 0 ==>
              var c := GetCurrentState(s).color;
              |c| == Max(6, |Hex(s.color)|) + 1 && IsLowerHex(c[1..]) && ParseHex(c[1..]) == s.color
    ensures s.color < 0 ==>
              var c := GetCurrentState(s).color;
              c[1] == '-' && IsLowerHex(c[2..]) && ParseHex(c[2..]) == -s.color
  {
    ColorStringRoundTrip(s.color);
  }

  /**
    The reports of a sequence of states, in order; `ReportsPointwise` states
    that the k-th report is that of the k-th state.
  */
  function Reports(states: seq<DeviceState>): (r: seq<StateReport>)
    ensures |r| == |states|
  {
    if states == [] then [] else Reports(states[..|states| - 1]) + [GetCurrentState(states[|states| - 1])]
  }

  lemma ReportsSnoc(states: seq<DeviceState>, t: DeviceState)
    ensures Reports(states + [t]) == Reports(states) + [GetCurrentState(t)]
  {
    assert (states + [t])[..|states|] == states;
  }

  /** The reports are the states' reports one for one, in order. */
  lemma {:induction false} ReportsPointwise(states: seq<DeviceState>)
    ensures forall k :: 0 <= k < |states| ==> Reports(states)[k] == GetCurrentState(states[k])
  {
    if states != [] {
      var init := states[..|states| - 1];
      ReportsPointwise(init);
      assert states == init + [states[|states| - 1]];
      ReportsSnoc(init, states[|states| - 1]);
    }
  }

  /** What the hook sends while `msgs` are handled from `s`: one report per matched command, or nothing when no hook is set. */
  function Sent(s: DeviceState, msgs: seq<CommandDTO>, hooked: bool): seq<StateReport>
    requires AllHaveColor(msgs)
  {
    if hooked then Reports(Notified(s, msgs)) else []
  }

  /** Handling one more command extends the state by that command's step and the sent reports by its report, if an arm matched and a hook is set. */
  lemma SentSnoc(s: DeviceState, xs: seq<CommandDTO>, m: CommandDTO, hooked: bool)
    requires AllHaveColor(xs) && HasColorIfColor(m)
    ensures AllHaveColor(xs + [m])
    ensures ReduceAll(s, xs + [m]) == Step(ReduceAll(s, xs), m)
    ensures Sent(s, xs + [m], hooked) ==
              Sent(s, xs, hooked) +
              (if hooked && Reduce(ReduceAll(s, xs), m).Some? then [GetCurrentState(Step(ReduceAll(s, xs), m))] else [])
  {
    Snoc(s, xs, m);
    if hooked {
      match Reduce(ReduceAll(s, xs), m) {
        case Some(t) =>
          assert Notified(s, xs + [m]) == Notified(s, xs) + [t];
          ReportsSnoc(Notified(s, xs), t);
        case None =>
          assert Notified(s, xs + [m]) == Notified(s, xs);
      }
    }
  }

  /** `after` is `before` with `sent` appended for each websocket in `to` and unchanged for every other one. */
  predicate Appended(before: map<ClientId, seq<StateReport>>, after: map<ClientId, seq<StateReport>>,
                     to: set<ClientId>, sent: seq<StateReport>)
  {
    after.Keys == before.Keys &&
    forall ws :: ws in after ==> after[ws] == before[ws] + (if ws in to then sent else [])
  }

  lemma PrefixGrows(msgs: seq<CommandDTO>, k: nat)
    requires k < |msgs|
    ensures msgs[..k] + [msgs[k]] == msgs[..k + 1]
  {
  }

  /** Two rounds of sends to the same clients add up to one round of both, in order. */
  lemma AppendedTwice(a: map<ClientId, seq<StateReport>>, b: map<ClientId, seq<StateReport>>,
                      c: map<ClientId, seq<StateReport>>, to: set<ClientId>, s1: seq<StateReport>, s2: seq<StateReport>)
    requires Appended(a, b, to, s1) && Appended(b, c, to, s2)
    ensures Appended(a, c, to, s1 + s2)
  {
    forall ws | ws in c
      ensures c[ws] == a[ws] + (if ws in to then s1 + s2 else [])
    {
      if ws in to {
        assert a[ws] + s1 + s2 == a[ws] + (s1 + s2);
      } else {
        assert a[ws] + [] + [] == a[ws] + [];
      }
    }
  }

  /** The default state is reported as on, with the sentinel shown whole as `#deadbeef`. */
  lemma DefaultReport()
    ensures GetCurrentState(DefaultState) == StateReport(true, "#deadbeef")
  {
    DefaultColorString();
  }

  /** The application state: the flashlight's two entries, the client set and what has been sent. */
  class Flashlight {
    var isOn: bool
    var color: int
    var clients: set<ClientId>
    /** Everything sent to each websocket that was ever registered, oldest first. */
    var inbox: map<ClientId, seq<StateReport>>
    /** The snapshot of every broadcast pass, oldest first. */
    var notifications: seq<StateReport>

    ghost predicate Valid()
      reads this
    {
      clients <= inbox.Keys
    }

    function State(): DeviceState
      reads this
    {
      DeviceState(isOn, color)
    }

    /** The defaults written by `run_listening_to_commands`: on, 0xdeadbeef, no clients. */
    constructor ()
      ensures Valid()
      ensures State() == DefaultState
      ensures clients == {} && inbox == map[] && notifications == []
    {
      isOn := true;
      color := 0xdeadbeef;
      clients := {};
      inbox := map[];
      notifications := [];
    }

    /** The websocket handler's entry: its websocket joins the set; a set holds it at most once. */
    method Register(ws: ClientId)
      requires Valid()
      modifies this
      ensures Valid()
      ensures clients == old(clients) + {ws}
      ensures inbox == if ws in old(inbox) then old(inbox) else old(inbox)[ws := []]
      ensures State() == old(State()) && notifications == old(notifications)
    {
      clients := clients + {ws};
      if ws !in inbox {
        inbox := inbox[ws := []];
      }
    }

    /**
      The handler's `finally`: `set.remove` takes its websocket out of the
      set; `found` is false when it was not there (a `KeyError`).
    */
    method Unregister(ws: ClientId) returns (found: bool)
      requires Valid()
      modifies this
      ensures Valid()
      ensures found <==> ws in old(clients)
      ensures clients == old(clients) - {ws} && ws !in clients
      ensures inbox == old(inbox) && State() == old(State()) && notifications == old(notifications)
    {
      found := ws in clients;
      if found {
        clients := clients - {ws};
      }
    }

    /**
      `websocket_handler` with its message loop left out: the websocket is
      added on entry and removed in `finally`, which always finds it, so
      once the handler has finished the websocket is no longer a client.
    */
    method WebsocketSession(ws: ClientId) returns (found: bool)
      requires Valid()
      modifies this
      ensures Valid()
      ensures found
      ensures clients == old(clients) - {ws}
      ensures inbox.Keys == old(inbox.Keys) + {ws}
      ensures forall c :: c in old(inbox) ==> inbox[c] == old(inbox[c])
      ensures State() == old(State()) && notifications == old(notifications)
    {
      Register(ws);
      found := Unregister(ws);
    }

    /**
      `broadcast`: one snapshot taken before the loop and sent once to every
      client in the set; the state and the set do not change.
    */
    method Broadcast()
      requires Valid()
      modifies this
      ensures Valid()
      ensures State() == old(State()) && clients == old(clients)
      ensures notifications == old(notifications) + [GetCurrentState(State())]
      ensures Appended(old(inbox), inbox, clients, [GetCurrentState(State())])
    {
      var snapshot := GetCurrentState(State());
      var pending := clients;
      while pending != {}
        invariant pending <= clients
        invariant Valid() && State() == old(State()) && clients == old(clients) && inbox.Keys == old(inbox.Keys)
        invariant notifications == old(notifications)
        invariant forall ws :: ws in clients && ws !in pending ==> inbox[ws] == old(inbox[ws]) + [snapshot]
        invariant forall ws :: ws in inbox && (ws !in clients || ws in pending) ==> inbox[ws] == old(inbox[ws])
        decreases pending
      {
        var ws :| ws in pending;
        inbox := inbox[ws := inbox[ws] + [snapshot]];
        pending := pending - {ws};
      }
      notifications := notifications + [snapshot];
      assert forall ws :: ws in inbox && ws !in clients ==> inbox[ws] == old(inbox[ws]) + [];
    }

    /**
      One pass of the `async for` body of `listen_to_commands`: the matching
      arm sets one field and the hook, when set, runs once; the catch-all arm
      does neither.
    */
    method HandleCommand(m: CommandDTO, hooked: bool) returns (matched: bool)
      requires Valid() && HasColorIfColor(m)
      modifies this
      ensures Valid()
      ensures matched <==> Reduce(old(State()), m).Some?
      ensures State() == Step(old(State()), m)
      ensures clients == old(clients)
      ensures var sent := if matched && hooked then [GetCurrentState(State())] else [];
              notifications == old(notifications) + sent && Appended(old(inbox), inbox, clients, sent)
    {
      match ParseCommandType(m.command) {
        case Some(ON) =>
          isOn := true;
        case Some(OFF) =>
          isOn := false;
        case Some(COLOR) =>
          color := m.metadata.value;
        case None =>
          assert forall ws :: ws in inbox ==> inbox[ws] == old(inbox[ws]) + [];
          return false;
      }
      matched := true;
      if hooked {
        Broadcast();
      } else {
        assert forall ws :: ws in inbox ==> inbox[ws] == old(inbox[ws]) + [];
      }
    }

    /**
      The `async for` loop of `listen_to_commands`: the commands go through
      the reducer one at a time, in order, each notified before the next is
      taken.
    */
    method HandleCommands(msgs: seq<CommandDTO>, hooked: bool)
      requires Valid() && AllHaveColor(msgs)
      modifies this
      ensures Valid()
      ensures State() == ReduceAll(old(State()), msgs)
      ensures clients == old(clients)
      ensures notifications == old(notifications) + Sent(old(State()), msgs, hooked)
      ensures Appended(old(inbox), inbox, clients, Sent(old(State()), msgs, hooked))
    {
      ghost var start := State();
      ghost var done: seq<CommandDTO> := [];
      ghost var sent: seq<StateReport> := [];
      assert Appended(inbox, inbox, clients, []) by {
        assert forall ws :: ws in inbox ==> inbox[ws] == inbox[ws] + [];
      }
      var k := 0;
      while k < |msgs|
        invariant 0 <= k <= |msgs| && done == msgs[..k]
        invariant Valid() && clients == old(clients)
        invariant AllHaveColor(done)
        invariant State() == ReduceAll(start, done)
        invariant sent == Sent(start, done, hooked)
        invariant notifications == old(notifications) + sent
        invariant Appended(old(inbox), inbox, clients, sent)
      {
        ghost var inboxBefore := inbox;
        SentSnoc(start, done, msgs[k], hooked);
        PrefixGrows(msgs, k);
        var matched := HandleCommand(msgs[k], hooked);
        ghost var step := if matched && hooked then [GetCurrentState(State())] else [];
        AppendedTwice(old(inbox), inboxBefore, inbox, clients, sent, step);
        Regroup(old(notifications), sent, step);
        sent := sent + step;
        done := done + [msgs[k]];
        k := k + 1;
      }
      assert done == msgs;
    }

    /**
      `listen_to_commands`: every command the reader yields (with its default
      of five tries) goes through the reducer; returns how the reader stopped.
      `counting` picks the reader: as written, or the corrected one.
    */
    method ListenToCommands(counting: Counting, script: seq<ConnectAttempt>, decode: string -> Option<RawCommand>,
                            hooked: bool)
      returns (exit: ReaderState)
      requires Valid()
      modifies this
      ensures Valid()
      ensures exit == Listened(counting, script, decode).state
      ensures clients == old(clients)
      ensures var msgs := Listened(counting, script, decode).yielded;
              AllValid(msgs) &&
              State() == ReduceAll(old(State()), msgs) &&
              notifications == old(notifications) + Sent(old(State()), msgs, hooked) &&
              Appended(old(inbox), inbox, clients, Sent(old(State()), msgs, hooked))
    {
      var out;
      if counting == AsWritten {
        out := ReadRemoteCommands(DefaultMaxReconnectTries, script, decode);
        ReaderProperties.ReadRemoteFacts(DefaultMaxReconnectTries, script, decode);
      } else {
        out := ReadRemoteCommandsBounded(DefaultMaxReconnectTries, script, decode);
        ReaderProperties.ReadRemoteBoundedFacts(DefaultMaxReconnectTries, script, decode);
      }
      assert AllValid(out.yielded);
      HandleCommands(out.yielded, hooked);
      exit := out.state;
    }
  }

  /** What `listen_to_commands` iterates: `_read_remote_commands(host, port)` with its default of five tries. */
  function Listened(counting: Counting, script: seq<ConnectAttempt>, decode: string -> Option<RawCommand>): (o: Outcome)
    ensures counting == AsWritten ==> o == ReadRemote(DefaultMaxReconnectTries, script, decode)
    ensures counting == PerReconnect ==> o == ReadRemoteBounded(DefaultMaxReconnectTries, script, decode)
  {
    Run(DefaultMaxReconnectTries, counting, script, decode, 0, 1, [], [], None)
  }

  /**
    The done callback `halt_if_exception`: the service stops when the listener
    task ended with an exception, that is a connection error or the corrected
    reader running out of tries. A plain return or a swallowed cancellation
    leaves the service running.
  */
  predicate HaltsService(exit: ReaderState) {
    exit.Terminated? && (exit.exit == Raised || exit.exit == Exhausted)
  }

  /**
    A listener that ends stops the service unless it was cancelled: with five
    tries neither reader ends by a plain return.
  */
  lemma ListenerEndsLoudly(counting: Counting, script: seq<ConnectAttempt>, decode: string -> Option<RawCommand>)
    ensures var exit := Listened(counting, script, decode).state;
            exit.Terminated? ==> (HaltsService(exit) <==> exit.exit != Cancelled)
  {
    if counting == AsWritten {
      ReaderProperties.ReadRemoteFacts(DefaultMaxReconnectTries, script, decode);
    } else {
      ReaderProperties.ReadRemoteBoundedFacts(DefaultMaxReconnectTries, script, decode);
    }
  }

  /**
    As written, a server that keeps closing the stream never stops the
    service: the listener keeps reconnecting and raises nothing.
  */
  lemma AsWrittenKeepsServing(script: seq<ConnectAttempt>, decode: string -> Option<RawCommand>)
    requires forall j :: 0 <= j < |script| ==> ReaderProperties.IsEofConnection(script[j])
    ensures Listened(AsWritten, script, decode).state == Connecting
    ensures !HaltsService(Listened(AsWritten, script, decode).state)
  {
    ReaderProperties.EveryEofReconnects(DefaultMaxReconnectTries, script, decode, 0, 1, [], [], None);
  }

  /** When the upstream server keeps closing the stream, the corrected listener gives up after five connections and the service stops. */
  lemma GivingUpHaltsService(script: seq<ConnectAttempt>, decode: string -> Option<RawCommand>)
    requires |script| >= DefaultMaxReconnectTries
    requires forall j :: 0 <= j < |script| ==> ReaderProperties.IsEofConnection(script[j])
    ensures HaltsService(ReadRemoteBounded(DefaultMaxReconnectTries, script, decode).state)
  {
    ReaderProperties.BoundedGivesUp(DefaultMaxReconnectTries, script, decode, 0, 1, [], [], None);
  }

  /**
    `run_listening_to_commands`: a fresh application state with the defaults,
    then `listen_to_commands` with `broadcast` as the hook and the reader
    `counting` picks; `halted` says whether `halt_if_exception` stops the
    service when the listener ends.
  */
  method RunListeningToCommands(counting: Counting, script: seq<ConnectAttempt>, decode: string -> Option<RawCommand>)
    returns (app: Flashlight, exit: ReaderState, halted: bool)
    ensures fresh(app) && app.Valid()
    ensures exit == Listened(counting, script, decode).state
    ensures halted <==> exit.Terminated? && exit.exit != Cancelled
    ensures var msgs := Listened(counting, script, decode).yielded;
            AllValid(msgs) &&
            app.State() == ReduceAll(DefaultState, msgs) &&
            app.notifications == Reports(Notified(DefaultState, msgs))
    ensures app.clients == {}
  {
    app := new Flashlight();
    exit := app.ListenToCommands(counting, script, decode, true);
    ListenerEndsLoudly(counting, script, decode);
    halted := HaltsService(exit);
  }
}
