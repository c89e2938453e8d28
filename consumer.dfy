/**
  The editor prototype's per-frame systems over the state they update in
  place: `thingbutton` (src/main.rs:41-75), `listener` (src/main.rs:177-182)
  and `bloomin_doomin` (src/main.rs:131-175). Each method applies its
  deferred commands (despawn, spawn) at its end.
 */
module Consumer {
  import opened Common
  import opened Framing
  import opened Supervision

  /** Bevy's `Interaction` of the launch button. */
  datatype Interaction = Pressed | Hovered | NotInteracting

  /** Which way a tick of `bloomin_doomin` went, with what it logged. */
  datatype TickOutcome =
    | NoChild
    | ChildExited(level: Level, status: ExitStatus)
    | NoMessages
    | Displayed(msgs: seq<Bytes>)

  class App {
    var cwd: Option<string>
    var child: Option<Child>
    var buttonPresent: bool
    /** The text of every `DebugText` entity, as bytes. */
    var debugTexts: seq<Bytes>
    const channel: Subscriber

    /** The supervision part of the world. */
    function Sup(): State
      reads this
    {
      State(cwd, child, buttonPresent)
    }

    ghost predicate Valid()
      reads this
    {
      Supervision.Valid(Sup())
    }

    /** `main` and `startup_ui`: no working directory, the launch button, one empty `DebugText`. */
    constructor (ch: Subscriber)
      ensures Valid() && Sup() == Initial()
      ensures debugTexts == [[]] && channel == ch
    {
      cwd, child, buttonPresent := None, None, true;
      debugTexts := [[]];
      channel := ch;
    }

    /**
      `thingbutton` for a change of the button's interaction. A press starts a
      child in the working directory only when one is set, and removes the
      button in the same step; hovering only recolours the button.
     */
    method ThingButton(interaction: Interaction, pid: nat)
      requires Valid()
      modifies this`child, this`buttonPresent
      ensures Valid()
      ensures Sup() == if interaction == Pressed then Step(old(Sup()), Press(pid)) else old(Sup())
      ensures old(child).Some? ==> child == old(child)
    {
      if !buttonPresent {
        return;
      }
      match interaction
      case Pressed =>
        if cwd.Some? {
          buttonPresent := false;
          child := Some(Child(pid, cwd.value));
        }
      case Hovered =>
      case NotInteracting =>
    }

    /** `listener`: each submitted path in turn replaces the working directory. */
    method Listener(submitted: seq<string>)
      requires Valid()
      modifies this`cwd
      ensures Valid()
      ensures cwd == if submitted == [] then old(cwd) else Some(submitted[|submitted| - 1])
      ensures Sup() == Run(old(Sup()), Submissions(submitted))
    {
      for i := 0 to |submitted|
        invariant cwd == if i == 0 then old(cwd) else Some(submitted[i - 1])
      {
        cwd := Some(submitted[i]);
      }
      LastSubmissionWins(old(Sup()), submitted);
    }

    /**
      `bloomin_doomin`. Without a child nothing happens. A child that has
      exited is removed and its status reported, and the tick ends without
      touching the channel. Otherwise every pending chunk is drained; if no
      message was completed the texts stay as they were, else every
      `DebugText` shows the last completed message. The unfinished remainder
      is dropped.
     */
    method BloominDoomin(poll: Option<ExitStatus>) returns (outcome: TickOutcome)
      requires Valid()
      modifies this`child, this`debugTexts, channel
      ensures Valid() && Sup() == Step(old(Sup()), Tick(poll))
      ensures old(child).None? ==>
        outcome == NoChild && debugTexts == old(debugTexts) && channel.pending == old(channel.pending)
      ensures old(child).Some? && poll.Some? ==>
        && outcome.ChildExited? && outcome.status == poll.value
        && (outcome.level == Info <==> Success(poll.value))
        && child.None? && debugTexts == old(debugTexts) && channel.pending == old(channel.pending)
      ensures old(child).Some? && poll.None? ==>
        var done := Reassemble(old(channel.pending)).msgs;
        && channel.pending == []
        && (done == [] ==> outcome == NoMessages && debugTexts == old(debugTexts))
        && (done != [] ==> outcome == Displayed(done) && |debugTexts| == |old(debugTexts)|)
        && (done != [] ==> forall k :: 0 <= k < |debugTexts| ==> debugTexts[k] == done[|done| - 1])
    {
      if child.None? {
        return NoChild;
      }
      if poll.Some? {
        var status := poll.value;
        child := None;
        if !Success(status) {
          outcome := ChildExited(Error, status);
        } else {
          outcome := ChildExited(Info, status);
        }
        return;
      }
      var msgs, currmsg := Drain(channel);
      if msgs == [] {
        return NoMessages;
      }
      outcome := Displayed(msgs);
      var last := msgs[|msgs| - 1];
      for i := 0 to |debugTexts|
        invariant |debugTexts| == |old(debugTexts)|
        invariant forall k :: 0 <= k < i ==> debugTexts[k] == last
        modifies this`debugTexts
      {
        debugTexts := debugTexts[i := last];
      }
    }
  }
}
