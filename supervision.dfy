/**
  The child-process supervision of the editor prototype as a pure state
  machine: the `Cwd` resource written by `listener` (src/main.rs:177-181), the
  launch gate of `thingbutton` (src/main.rs:50-67) and the exit poll of
  `bloomin_doomin` (src/main.rs:137-150). The class in module Consumer
  performs these steps in place; this module states what they mean over runs.
 */
module Supervision {
  import opened Common

  /** How a child ended, as a Unix `ExitStatus` reports it: an exit code, or the signal that killed it. */
  datatype ExitStatus = Code(code: int) | Signal(signo: int)

  /** `ExitStatus::success`: the child exited with code zero. */
  predicate Success(st: ExitStatus)
  {
    st.Code? && st.code == 0
  }

  /** The log level an exit is reported at. */
  datatype Level = Info | Error

  /** A spawned `cargo run` child: the id the OS gave it and the directory it was started in. */
  datatype Child = Child(pid: nat, workDir: string)

  /**
    What the supervisor keeps between ticks: the `Cwd` resource, the single
    `GameSubProcess` entity if any, and whether the launch button still exists.
   */
  datatype State = State(cwd: Option<string>, child: Option<Child>, buttonPresent: bool)

  /** After start-up: no working directory (main.rs:25), no child, and the launch button spawned. */
  function Initial(): State
  {
    State(None, None, true)
  }

  /** A live child and the launch button never exist together. */
  predicate Valid(s: State)
  {
    s.child.Some? ==> !s.buttonPresent
  }

  /**
    What can happen to the supervisor: a path submitted in the text input, a
    press of the launch button (with the id the OS gives the child it spawns),
    and a tick of the consumer (with what `try_wait` reports).
   */
  datatype Event = Submit(path: string) | Press(pid: nat) | Tick(poll: Option<ExitStatus>)

  /**
    One event. `Submit` replaces the working directory (main.rs:180); `Press`
    is the launch gate of `thingbutton` (main.rs:52-67); `Tick` is the exit
    poll of `bloomin_doomin` (main.rs:137-150). The button is never brought
    back, a child only ever enters the slot through a press with the button
    present and a working directory set, and it then runs in that directory.
   */
  function Step(s: State, e: Event): (t: State)
    ensures Valid(s) ==> Valid(t)
    ensures t.buttonPresent ==> s.buttonPresent
    ensures t.child.Some? && t.child != s.child ==>
      e.Press? && s.buttonPresent && s.cwd.Some? && t.child == Some(Child(e.pid, s.cwd.value))
    ensures t.cwd == if e.Submit? then Some(e.path) else s.cwd
    ensures e.Tick? ==> t.buttonPresent == s.buttonPresent && (t.child == s.child || t.child.None?)
  {
    match e
    case Submit(path) => s.(cwd := Some(path))
    case Press(pid) =>
      if s.buttonPresent && s.cwd.Some? then State(s.cwd, Some(Child(pid, s.cwd.value)), false) else s
    case Tick(poll) =>
      if s.child.Some? && poll.Some? then s.(child := None) else s
  }

  /** The state after the events `es`, in order. */
  function Run(s: State, es: seq<Event>): State
  {
    if es == [] then s else Step(Run(s, es[..|es| - 1]), es[|es| - 1])
  }

  /** `e` puts a new child into the slot. */
  predicate StartsChild(s: State, e: Event)
  {
    Step(s, e).child.Some? && Step(s, e).child != s.child
  }

  /** How many children the events `es` start. */
  function Launches(s: State, es: seq<Event>): nat
  {
    if es == [] then 0
    else
      var p := es[..|es| - 1];
      Launches(s, p) + (if StartsChild(Run(s, p), es[|es| - 1]) then 1 else 0)
  }

  /** The events of a batch of submitted paths. */
  function Submissions(paths: seq<string>): seq<Event>
  {
    if paths == [] then [] else Submissions(paths[..|paths| - 1]) + [Submit(paths[|paths| - 1])]
  }

  /** A press starts a child exactly when the button is there and a working directory is set; the child runs there and the button is gone. */
  lemma PressGate(s: State, pid: nat)
    requires Valid(s)
    ensures StartsChild(s, Press(pid)) <==> s.buttonPresent && s.cwd.Some?
    ensures StartsChild(s, Press(pid)) ==>
      Step(s, Press(pid)).child == Some(Child(pid, s.cwd.value)) && !Step(s, Press(pid)).buttonPresent
    ensures !StartsChild(s, Press(pid)) ==> Step(s, Press(pid)) == s
  {
  }

  /** Every run keeps a live child and the launch button apart. */
  lemma {:induction false} RunPreservesValid(s: State, es: seq<Event>)
    requires Valid(s)
    ensures Valid(Run(s, es))
  {
    if es != [] {
      RunPreservesValid(s, es[..|es| - 1]);
    }
  }

  /**
    A run starts at most one child while the button exists, none without it,
    and once a child has been started the button is gone for good.
   */
  lemma {:induction false} LaunchBudget(s: State, es: seq<Event>)
    requires Valid(s)
    ensures Launches(s, es) + (if Run(s, es).buttonPresent then 1 else 0) <= (if s.buttonPresent then 1 else 0)
  {
    if es != [] {
      var p := es[..|es| - 1];
      LaunchBudget(s, p);
      RunPreservesValid(s, p);
    }
  }

  /** From start-up, no sequence of events ever starts a second child. */
  lemma AtMostOneChildEver(es: seq<Event>)
    ensures Launches(Initial(), es) <= 1
  {
    LaunchBudget(Initial(), es);
  }

  /** Without a child and without the button, no event ever brings either back. */
  lemma {:induction false} Dormant(s: State, es: seq<Event>)
    requires s.child.None? && !s.buttonPresent
    ensures Run(s, es).child.None? && !Run(s, es).buttonPresent
  {
    if es != [] {
      Dormant(s, es[..|es| - 1]);
    }
  }

  /**
    Once a tick observes the child's exit the slot is cleared, and since the
    button was removed at launch, no later event starts another child.
   */
  lemma ExitIsFinal(s: State, st: ExitStatus, es: seq<Event>)
    requires Valid(s) && s.child.Some?
    ensures Step(s, Tick(Some(st))).child.None?
    ensures Launches(Step(s, Tick(Some(st))), es) == 0
    ensures Run(Step(s, Tick(Some(st))), es).child.None?
  {
    var t := Step(s, Tick(Some(st)));
    LaunchBudget(t, es);
    Dormant(t, es);
  }

  /** A tick without a child, or whose poll finds the child still running, changes nothing. */
  lemma QuietTick(s: State, poll: Option<ExitStatus>)
    requires s.child.None? || poll.None?
    ensures Step(s, Tick(poll)) == s
  {
  }

  /** After a batch of submissions the working directory is the last path submitted; nothing else changes. */
  lemma {:induction false} LastSubmissionWins(s: State, paths: seq<string>)
    ensures Run(s, Submissions(paths)) == if paths == [] then s else s.(cwd := Some(paths[|paths| - 1]))
  {
    if paths != [] {
      var p := paths[..|paths| - 1];
      LastSubmissionWins(s, p);
      var es := Submissions(paths);
      assert es[..|es| - 1] == Submissions(p);
    }
  }
}
