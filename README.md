# World-sync consumer and game-process supervisor

A Dafny model of the per-frame core of the editor prototype in `src/main.rs`.
That core has two halves:

- **Chunk reassembly.** `bloomin_doomin` drains the zero-copy world-sync
  subscriber. It appends each chunk's payload to a local buffer `currmsg`,
  and closes a message at every chunk whose end flag is set. When at least
  one message was completed, every `DebugText` shows the last one.
- **Supervision of the game process.** `listener` stores the submitted path
  in the `Cwd` resource. A press of the launch button (`thingbutton`) spawns
  `cargo run` in that directory, but only when a directory is set, and
  removes the button at the same time. Each tick, `bloomin_doomin` polls the
  child with `try_wait`. When the child has exited, the tick removes it,
  reports the status, and returns before touching the channel.

Modules:

- `Common` holds `Option`.
- `Framing` holds chunks and the reassembly function `Reassemble` with its
  lemmas. It also holds the subscriber as a class with a queue of pending
  chunks, and the drain loop `Drain`, which is proved against `Reassemble`.
- `Supervision` holds the supervisor as a pure state machine (`Step` and
  `Run` over events) with lemmas about whole runs.
- `Consumer` holds the class `App`. Its fields are `cwd`, `child`,
  `buttonPresent`, the `DebugText` contents and the subscriber. Its methods
  `ThingButton`, `Listener` and `BloominDoomin` update these fields in place.
  Each method's postcondition ties its new state to `Supervision.Step` or
  `Supervision.Run`, and to `Framing.Reassemble`.

Two consequences of the code are worth stating, since a reader might expect
otherwise:

- `currmsg` is a local of `bloomin_doomin` (src/main.rs:153). The bytes of
  an unfinished message are dropped at the end of the tick, not carried into
  the next one. `Framing.SplitAcrossTicks` shows a message split over two
  ticks being shown as its tail only. `Framing.SplitInsideMessage` shows that
  ending a tick loses exactly the bytes of the open buffer, keeping every
  other byte in arrival order. `Framing.BoundarySplit` shows that when the
  tick ends on a message boundary the result equals reassembling both ticks'
  chunks together.
- The exit branch (src/main.rs:142-149) clears the child slot, but nothing
  respawns the launch button despawned at src/main.rs:54. So once the child
  has exited, no later event can start another one
  (`Supervision.ExitIsFinal`).

## Model

| member | source | states |
|---|---|---|
| `Framing.EndPositions` | src/main.rs:154-161 | lists, in strictly increasing order, positions of chunks whose end flag is set, each inside the batch |
| `Framing.EndPositionsExact` | src/main.rs:155-158 | a position is listed exactly when the chunk there has its end flag set (both directions) |
| `Framing.Absorb` | src/main.rs:155-161 | one chunk leaves the earlier messages as they are, adds a message exactly when its end flag is set, and leaves the open buffer empty after such a chunk |
| `Framing.AbsorbKeepsBytes` | src/main.rs:157-161 | one chunk appends its payload after the bytes already held (messages, then open buffer) and moves no other byte |
| `Framing.Reassemble` | src/main.rs:152-162 | the loop's locals after receiving a batch from empty ones: exactly as many messages as chunks with the end flag set |
| `Framing.EndCount` | src/main.rs:158 | the number of listed end positions equals the number of chunks with the end flag set |
| `Framing.SpanCount` | src/main.rs:154-162 | the completed messages correspond one to one with the end-flagged positions |
| `Framing.ClosingMessage` | src/main.rs:157-161 | when the last received chunk has its end flag set, the earlier messages are kept, the new message is the open buffer followed by that chunk's payload (so an empty one when nothing was accumulated and the payload is empty), the buffer becomes empty, and the new message spans from just after the previous end-flagged chunk through this one |
| `Framing.MessageSpan` | src/main.rs:157-161 | message j is the payloads from just after the j-th end-flagged chunk through the (j+1)-st, that chunk's bytes included |
| `Framing.RemainderSpan` | src/main.rs:153-161 | the open buffer holds exactly the payloads after the last end-flagged chunk, so it is empty right after one |
| `Framing.NoLoss` | src/main.rs:154-162 | completed messages in order, then the open buffer, equal all received payloads in arrival order |
| `Framing.BoundarySplit` | src/main.rs:152-162 | two batches reassembled separately give the messages of the whole when the first ends on a boundary |
| `Framing.SplitInsideMessage` | src/main.rs:152-162 | two batches reassembled separately hold all received bytes in arrival order except the first batch's open buffer, and so differ from the whole when that buffer is not empty |
| `Framing.SplitAcrossTicks` | src/main.rs:152-162 | an unfinished message is dropped with the local buffer: split over two ticks, only its tail is completed |
| `Framing.ThreeChunks` | src/main.rs:154-162 | chunks "AB", "CD" with end flag, "EF" give the message "ABCD" and leave "EF" open |
| `Framing.Subscriber.constructor` | src/main.rs:202 | a new subscriber holds the given pending chunks |
| `Framing.Subscriber.Receive` | src/main.rs:154 | returns and removes the oldest pending chunk, or reports none when nothing is pending |
| `Framing.Drain` | src/main.rs:152-162 | receives until the subscriber reports none, leaving nothing pending, and returns the messages and open buffer that `Reassemble` gives for the received chunks |
| `Supervision.Step` | src/main.rs:52-67 | one event: a press (lines 52-67), a submission (line 180) or a tick's exit poll (lines 137-150); no event brings the button back or breaks "child excludes button"; a child only enters the slot through a press with the button present and a working directory set, and runs in that directory; only a submission changes the working directory, to the submitted path; a tick never touches the button and can only clear the slot |
| `Supervision.PressGate` | src/main.rs:52-67 | a press starts a child exactly when the button exists and a working directory is set; the child runs in that directory and the button is gone; otherwise nothing changes |
| `Supervision.RunPreservesValid` | src/main.rs:50-67 | no run ever has a live child while the launch button exists |
| `Supervision.LaunchBudget` | src/main.rs:50-67 | a run starts at most one child while the button exists and none once it is gone |
| `Supervision.AtMostOneChildEver` | src/main.rs:50-67 | from start-up, no sequence of submissions, presses and ticks starts more than one child |
| `Supervision.Dormant` | src/main.rs:54 | with neither child nor button, no event brings either back |
| `Supervision.ExitIsFinal` | src/main.rs:142-149 | an observed exit clears the child slot, and no later event starts another child |
| `Supervision.QuietTick` | src/main.rs:137-150 | a tick without a child, or whose poll finds the child running, leaves the supervisor unchanged |
| `Supervision.LastSubmissionWins` | src/main.rs:177-181 | after a batch of submissions the working directory is the last path submitted (unchanged for an empty batch); nothing else changes |
| `Consumer.App.constructor` | src/main.rs:25 | start-up: no working directory (line 25), no child, the launch button present (spawned by `startup_ui`, lines 102-109) and one empty `DebugText` (lines 114-125) |
| `Consumer.App.ThingButton` | src/main.rs:50-74 | a press performs `Supervision.Step` for a press; other interactions change nothing modelled; an existing child is never replaced |
| `Consumer.App.Listener` | src/main.rs:177-181 | the working directory becomes the last submitted path, which is `Supervision.Run` over the submissions |
| `Consumer.App.BloominDoomin` | src/main.rs:137-174 | no child: nothing changes; exited child: slot cleared, status reported as info exactly when it is success, channel untouched; otherwise the channel is drained, and the texts are unchanged when no message completed, else each shows the last completed message |

## Left out

- The layout of `startup_ui` and the hover and idle button colours (src/main.rs:69-72, 77-127) are presentation. `ThingButton` treats those interactions as changing nothing.
- `WorldSyncConsumerPlugin::build` (src/main.rs:194-206) opens the iceoryx2 service and creates the subscriber through foreign IPC calls. The subscriber is modelled as an unbounded queue of chunks. Its buffer capacity, overflow behaviour and publisher side are not modelled.
- The child process is modelled by the id the OS gives it and its working directory. The program (`cargo run`) and the environment variables `BEVY_WORLD_SYNC_SERVICE` and `RUST_BACKTRACE` are left out, as are the unused UUID key and the fixed service name.
- `try_wait` is the `poll` argument of a tick. The child id produced by the spawn is the `pid` argument of a press.
- The `unwrap()` calls on `receive`, `try_wait` and `spawn` panic on an OS or IPC error. The model assumes these calls succeed. In particular, a failed spawn ends the program instead of being reported.
- Log lines, including the per-chunk "Recieved" log, and `String::from_utf8_lossy` are not modelled. Messages are byte sequences, and `TickOutcome` records which log the tick wrote.
- Bevy defers the despawn and spawn commands to the end of the schedule and does not fix the order of the three systems in a frame. Each method applies its own commands when it finishes.
- `get_single_mut` fails when more than one `GameSubProcess` exists. `Supervision.AtMostOneChildEver` shows that this cannot happen, so the model uses a single optional slot.
- test/src/main.rs only builds a Bevy app and has no logic to model.
