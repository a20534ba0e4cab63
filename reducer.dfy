/**
  The reducer of `listen_to_commands` (src/flashlight_state.py:67-89) as
  functions on the device state: which field each command sets, whether the
  notification hook runs, and the states the hook sees over a sequence of
  commands. The class `App.Flashlight` runs the same loop in place.
*/
module Reducer {
  import opened Base
  import opened Commands

  /** The two entries of the application dictionary the reducer writes. */
  datatype DeviceState = DeviceState(isOn: bool, color: int)

  /**
    One pass of the `match`: the new state, or `None` for the catch-all arm,
    which changes nothing and skips the hook.
  */
  function Reduce(s: DeviceState, m: CommandDTO): Option<DeviceState>
    requires HasColorIfColor(m)
  {
    match ParseCommandType(m.command)
    case Some(ON) => Some(s.(isOn := true))
    case Some(OFF) => Some(s.(isOn := false))
    case Some(COLOR) => Some(s.(color := m.metadata.value))
    case None => None
  }

  /** The state after one command, whether or not an arm matched. */
  function Step(s: DeviceState, m: CommandDTO): DeviceState
    requires HasColorIfColor(m)
  {
    match Reduce(s, m)
    case Some(t) => t
    case None => s
  }

  predicate AllHaveColor(msgs: seq<CommandDTO>) {
    forall k :: 0 <= k < |msgs| ==> HasColorIfColor(msgs[k])
  }

  predicate AllValid(msgs: seq<CommandDTO>) {
    forall k :: 0 <= k < |msgs| ==> IsValid(msgs[k])
  }

  /** The state after a sequence of commands, applied in order. */
  function ReduceAll(s: DeviceState, msgs: seq<CommandDTO>): DeviceState
    requires AllHaveColor(msgs)
  {
    if msgs == [] then s else Step(ReduceAll(s, msgs[..|msgs| - 1]), msgs[|msgs| - 1])
  }

  /** The states the notification hook is called with, one per matched command, in order. */
  function Notified(s: DeviceState, msgs: seq<CommandDTO>): seq<DeviceState>
    requires AllHaveColor(msgs)
  {
    if msgs == [] then []
    else
      var before := msgs[..|msgs| - 1];
      Notified(s, before) +
      match Reduce(ReduceAll(s, before), msgs[|msgs| - 1])
      case Some(t) => [t]
      case None => []
  }

  /** One more command: the state takes that command's step, and the hook sees the new state if an arm matched. */
  lemma Snoc(s: DeviceState, xs: seq<CommandDTO>, m: CommandDTO)
    requires AllHaveColor(xs) && HasColorIfColor(m)
    ensures AllHaveColor(xs + [m])
    ensures ReduceAll(s, xs + [m]) == Step(ReduceAll(s, xs), m)
    ensures Notified(s, xs + [m]) ==
              Notified(s, xs) + match Reduce(ReduceAll(s, xs), m) case Some(t) => [t] case None => []
  {
    var p := xs + [m];
    assert AllHaveColor(p);
    assert p[..|p| - 1] == xs && p[|p| - 1] == m;
  }

  /**
    Each arm updates exactly one field: ON and OFF set the on flag, COLOR sets
    the colour to the metadata; the other field is kept. An unknown kind
    matches no arm and changes nothing.
  */
  lemma ReduceSetsOneField(s: DeviceState, m: CommandDTO)
    requires HasColorIfColor(m)
    ensures Reduce(s, m).Some? <==> m.command in {"ON", "OFF", "COLOR"}
    ensures m.command == "ON" ==> Reduce(s, m) == Some(DeviceState(true, s.color))
    ensures m.command == "OFF" ==> Reduce(s, m) == Some(DeviceState(false, s.color))
    ensures m.command == "COLOR" ==> Reduce(s, m) == Some(DeviceState(s.isOn, m.metadata.value))
    ensures Reduce(s, m).None? ==> Step(s, m) == s
  {
  }

  /** Every validated command matches an arm, so the hook runs exactly once per command and last sees the final state. */
  lemma {:induction false} NotifiedOncePerCommand(s: DeviceState, msgs: seq<CommandDTO>)
    requires AllValid(msgs)
    ensures |Notified(s, msgs)| == |msgs|
    ensures forall k :: 0 <= k < |msgs| ==> Notified(s, msgs)[k] == ReduceAll(s, msgs[..k + 1])
  {
    if msgs != [] {
      var before := msgs[..|msgs| - 1];
      NotifiedOncePerCommand(s, before);
      assert Reduce(ReduceAll(s, before), msgs[|msgs| - 1]).Some?;
      forall k | 0 <= k < |msgs|
        ensures Notified(s, msgs)[k] == ReduceAll(s, msgs[..k + 1])
      {
        if k < |msgs| - 1 {
          assert msgs[..k + 1] == before[..k + 1];
        } else {
          assert msgs[..k + 1] == msgs;
        }
      }
    }
  }

  lemma SplitLast(p: seq<CommandDTO>, q: seq<CommandDTO>)
    requires q != []
    ensures p + q == (p + q[..|q| - 1]) + [q[|q| - 1]]
  {
    var init, last := q[..|q| - 1], q[|q| - 1];
    assert q == init + [last];
    assert p + (init + [last]) == (p + init) + [last];
  }

  lemma AllHaveColorInit(xs: seq<CommandDTO>)
    requires AllHaveColor(xs) && xs != []
    ensures AllHaveColor(xs[..|xs| - 1]) && HasColorIfColor(xs[|xs| - 1])
  {
    var init := xs[..|xs| - 1];
    forall k | 0 <= k < |init|
      ensures HasColorIfColor(init[k])
    {
      assert init[k] == xs[k];
    }
  }

  /** A command of unknown kind leaves the state as if it had not been sent. */
  lemma {:induction false} UnknownCommandKeepsState(s: DeviceState, before: seq<CommandDTO>, m: CommandDTO, after: seq<CommandDTO>)
    requires AllHaveColor(before) && AllHaveColor(after)
    requires ParseCommandType(m.command).None?
    ensures AllHaveColor(before + [m] + after) && AllHaveColor(before + after)
    ensures ReduceAll(s, before + [m] + after) == ReduceAll(s, before + after)
    decreases |after|
  {
    Snoc(s, before, m);
    if after == [] {
      assert before + [m] + after == before + [m];
      assert before + after == before;
    } else {
      var init, last := after[..|after| - 1], after[|after| - 1];
      AllHaveColorInit(after);
      UnknownCommandKeepsState(s, before, m, init);
      SplitLast(before + [m], after);
      SplitLast(before, after);
      Snoc(s, before + [m] + init, last);
      Snoc(s, before + init, last);
    }
  }

  /** A command of unknown kind is not notified; the notifications of the others are as if it had not been sent. */
  lemma {:induction false} UnknownCommandNotNotified(s: DeviceState, before: seq<CommandDTO>, m: CommandDTO, after: seq<CommandDTO>)
    requires AllHaveColor(before) && AllHaveColor(after)
    requires ParseCommandType(m.command).None?
    ensures AllHaveColor(before + [m] + after) && AllHaveColor(before + after)
    ensures Notified(s, before + [m] + after) == Notified(s, before + after)
    decreases |after|
  {
    Snoc(s, before, m);
    if after == [] {
      assert before + [m] + after == before + [m];
      assert before + after == before;
    } else {
      var init, last := after[..|after| - 1], after[|after| - 1];
      AllHaveColorInit(after);
      UnknownCommandNotNotified(s, before, m, init);
      UnknownCommandKeepsState(s, before, m, init);
      SplitLast(before + [m], after);
      SplitLast(before, after);
      Snoc(s, before + [m] + init, last);
      Snoc(s, before + init, last);
    }
  }

  /** Applying the same COLOR command twice leaves the colour it carries, as once does, and notifies twice. */
  lemma ColorTwice(s: DeviceState, v: int)
    ensures var c := CommandDTO("COLOR", Some(v));
            ReduceAll(s, [c, c]) == ReduceAll(s, [c]) &&
            ReduceAll(s, [c, c]).color == v &&
            |Notified(s, [c, c])| == 2
  {
    var c := CommandDTO("COLOR", Some(v));
    assert [c, c][..1] == [c];
    assert [c][..0] == [];
    assert Notified(s, [c]) == [ReduceAll(s, [c])];
  }
}
