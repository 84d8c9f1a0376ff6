# Reverser loop/reverse engine — Dafny model

This project models the audio engine of the `reverser` plugin
(`examples/reverser.cpp`). The engine is a ring of `bs` stereo samples that
can record incoming audio and play recorded audio forwards or backwards.
`run()` is its one per-block step. Each call:

1. commits the action requested on the `action` control (record, hold,
   play 1, play 2), but only once 256 samples have passed since the last
   commit;
2. clears the output block;
3. renders a fade-out of the abandoned play cursor if a play action just
   ended;
4. records the input block into the ring, plays a window of the ring into
   the output, or holds.

Modules, leaf to root:

- `Ring` (`ring.dfy`): `minus` as `Minus`, forward steps as `Advance`, and the
  modular facts the cursor proofs use.
- `Store` (`store.dfy`): the stereo `Frame`, and `WriteRing`, which writes a
  block into consecutive ring slots that wrap at the end.
- `Actions` (`actions.dfy`): `action_t`, plus the cast from the integer control.
- `Recorder` (`recorder.dfy`): the record block, both as written and
  corrected (see Findings).
- `Player` (`player.dfy`): `play` with its read positions, count, fade gain
  and cursor movement.
- `Engine` (`engine.dfy`): the engine state, the debounced controller
  `Commit`, the render passes, `Run`, and runs over many blocks.
- `RoundTrip` (`roundtrip.dfy`): what playing back a fresh recording returns.

Modelling choices:

- Samples and gains are `real`, so gains multiply without rounding.
- The ring size `bs` is the length of the ring sequence. It is any positive
  number, not the source's `44100 * 8`.
- Cursors are `nat`. The play cursors follow the source's arithmetic
  exactly: the forward cursor moves up by `+= max` and the backward one
  down by `-= max`, without reduction modulo `bs`. The record cursor does
  not: `Engine.ActionPass`, and with it `Engine.Render` and `Engine.Run`,
  records through the corrected `Recorder.RecordBlock`,
  which reduces `record_head` modulo `bs` (see Findings and Left out).
- Where the C++ would wrap an unsigned value, the model states the
  requirement as a precondition (`Minus`, `PlayDefined`). The one wrap the
  code depends on is also modelled: `minus(record_start, record_head) - 1`
  when the two are equal, via `SizeDecrement`.
- A debug build aborts at the `assert(false)` on `play`'s fade-in branch.
  `Play` therefore requires that the fade is not a fade-in.
- `Run` returns `Failed(FadeInAssertion)` when it reaches that assertion. It
  returns `Failed(CursorUnderflow)` when a `play` call would wrap its cursor
  arithmetic.
- The action is cast directly from the integer control. The constructor
  declares the control's range as `0..3` (`action_ctrl.min = 0`,
  `action_ctrl.max = 3`), but nothing enforces it, and casting a value
  outside the enum's range is undefined in C++. The model's choice for such
  a value is `Unlisted(code)`, which behaves like hold.

Behaviour of the code as written that the proofs bring out:

- A debug build never plays. A commit into a play action always comes with
  `last_action != action`, so `play` is called with `fade_in` and fails the
  assertion. From the constructed state, every sequence of blocks either
  fails there or outputs only silence (`Engine.ConstructedEngineNeverPlays`).
- Backward playback is shifted by one slot. The backward reader starts at
  the cursor's own slot. After a recording, the cursor is `record_head`,
  which was not recorded, so the first backward sample is stale. The first
  recorded sample, at `record_start`, is never played
  (`RoundTrip.RecordThenPlayBackward`). Forward playback returns the
  recording exactly (`RoundTrip.RecordThenPlayForward`).
- The fade-out pass uses the current `forward` control, not the direction
  the abandoned cursor was playing in.
- A backward fade-out jumps after its first block. The ramp is computed
  from `minus(from_this_buf, from)`, the forward distance from the anchor.
  Forwards that distance grows with the cursor, so the ramp continues from
  block to block (`Player.GainContinuesForward`). Backwards, after a first
  block of `k` samples, it is `bs - k`, so the second block starts at gain
  `1 - (bs - k)/256` (`Player.BackwardFadeOutJumps`). With the source's ring
  of `44100 * 8` samples this is about -1377
  (`Player.BackwardFadeOutAtSourceSize`). The fade-out pass repeats on every
  block until the next commit, so every later block that still has samples
  to fade is affected.
- The fade-out ramp does not stop at 0. Past 256 samples from the anchor
  its gain turns negative and keeps falling for as long as the pass runs
  (`Player.FadeOutPassesZero`): within one 512-sample block, sample 511 has
  gain `1 - 511/256` (`Player.FadeOutBlockOf512`).
- The comment "record_head will always be <= bs" fails even while
  recordings start at slot 0, once a block entering an empty recording is
  longer than the ring: a 6-sample block into a 4-slot ring stays in
  bounds but leaves `record_head` at 6
  (`Recorder.LongEntryBlockPassesRingAsWritten`).

## Model

| member | source | states |
|---|---|---|
| `Ring.Minus` | examples/reverser.cpp:142-146 | the forward distance is below `bs`; for slots inside the ring it is `higher - lower` or `higher + bs - lower`, so it is 0 exactly when the slots coincide; it needs only `lower <= higher + bs`, not "higher pos is higher" |
| `Ring.MinusAdvance` | examples/reverser.cpp:142-146 | stepping `k < bs` slots forward from `p` gives a slot at distance `k` from `p` |
| `Ring.AdvanceMinus` | examples/reverser.cpp:142-146 | stepping forward from `p` by the distance to `t` lands on `t`, so `Minus` and `Advance` are inverse |
| `Ring.MinusAfterAdvance` | examples/reverser.cpp:163-164 | moving an unreduced cursor `i` slots forward, without overshooting, shortens its distance to a target by exactly `i` |
| `Ring.MinusAfterRetreat` | examples/reverser.cpp:201-202 | the backward read slot `(b + bs - i) % bs` lies `i` slots closer to the lower bound than `b` |
| `Ring.AdvanceHits` | examples/reverser.cpp:192 | slot `p` is the `k`-th slot after `head` exactly when `Minus(p, head) == k` |
| `Store.WriteRing` | examples/reverser.cpp:280-284 | after a wrapping write of `count < bs` frames, slot `p` holds input frame `Minus(p, head)` if that is below `count`, and its old frame otherwise |
| `Actions.FromControl` | examples/reverser.cpp:35-41 | the integer control maps onto `ac_record..ac_play_2` for `0..3` and to an unnamed value otherwise; converting back gives the control |
| `Actions.FromControlCode` | examples/reverser.cpp:223 | every well-formed action is what its own code converts to |
| `Recorder.SizeDecrement` | examples/reverser.cpp:275 | `x - 1` on `size_t` is subtraction modulo `2^64`: the result is `(x + 2^64 - 1) mod 2^64` |
| `Recorder.RecordCountAsWritten` | examples/reverser.cpp:272-277 | the as-written record count is at most the block length; it is the whole block when `record_start == record_head`, and otherwise `min(n, minus(record_start, record_head) - 1)` |
| `Recorder.RecordBlockAsWritten` | examples/reverser.cpp:272-286 | one record block as written succeeds exactly when every write index `record_head + i % bs` for `i` below the as-written count is inside the ring; the head then moves up by that count, unreduced |
| `Recorder.RoomEndsBehindStart` | examples/reverser.cpp:272-277 | the corrected room `Room` is exactly what the head may use: moving the head forward by it leaves the head one slot behind `record_start` (a one-slot ring with an empty recording has no room) |
| `Recorder.WriteAsWritten` | examples/reverser.cpp:280-286 | the as-written loop succeeds exactly when every index `record_head + i % bs` is inside the ring, and then advances the head by `count`; otherwise it reports an index at or past `bs` |
| `Recorder.RecordBlock` | examples/reverser.cpp:266-288 | a record block writes `min(n, room)` frames at the head, wrapping. It leaves all other slots alone and keeps the head inside the ring. A non-empty gap to `record_start` shrinks by exactly the count written. The head never reaches `record_start` unless nothing was written |
| `Recorder.AdvanceWithinRoom` | examples/reverser.cpp:275-277 | moving the head forward within the room keeps it short of `record_start` |
| `Recorder.WriteAsWrittenAgrees` | examples/reverser.cpp:280-286 | where no write passes the end of the ring, the as-written loop and `WriteRing` write the same frames and leave the same head |
| `Recorder.RecordAgreesWhileInBounds` | examples/reverser.cpp:272-286 | whenever the as-written record block stays inside the ring (and a block entering an empty recording is shorter than the ring), it stores the same frames as `RecordBlock`, and its head reduced modulo `bs` is `RecordBlock`'s head |
| `Recorder.LongEntryBlockPassesRingAsWritten` | examples/reverser.cpp:269-286 | with `record_start == record_head == 0`, a 6-sample block into a 4-slot ring is written whole, stays in bounds, and leaves `record_head` at 6, past `bs` |
| `Recorder.RecordAsWrittenFromStartZero` | examples/reverser.cpp:269-286 | with `record_start == 0` and a block shorter than the ring, the as-written record stays in bounds, keeps `record_head < bs` and equals `RecordBlock` |
| `Recorder.RecordAsWrittenOverruns` | examples/reverser.cpp:229 | with `record_start == record_head == 2` in a 4-slot ring, a 3-sample block writes index 4, past the ring |
| `Recorder.EntryBlockFillsRingAsWritten` | examples/reverser.cpp:272-277 | on an empty recording the `- 1` wraps, a block as long as the ring is written whole, and the head's distance to `record_start` returns to 0 |
| `Player.GainContinuesForward` | examples/reverser.cpp:179-195 | for a cursor that moves forwards, the next block's first gain equals the gain the current block's ramp would give `max` samples on, while the cursor is less than a ring's length past the anchor |
| `Player.BackwardFadeOutJumps` | examples/reverser.cpp:179-204 | for a backward fade-out anchored at `from`, sample `k` of the first block has gain `1 - k/256`, but the next block, starting `k` slots below the anchor, has first gain `1 - (bs - k)/256` |
| `Player.BackwardFadeOutAtSourceSize` | examples/reverser.cpp:179-204 | with the source's 352800-slot ring and a first block of 64 samples, a forward ramp would resume at gain 0.75 (the gain of sample 64), but the backward fade-out starts its second block at gain -1376.875 |
| `Player.FadeOutPassesZero` | examples/reverser.cpp:179-191 | the fade-out gain of a sample more than 256 samples past the anchor is negative: the ramp does not stop at 0 |
| `Player.FadeOutBlockOf512` | examples/reverser.cpp:179-191 | in a 512-sample fade-out block anchored at the cursor, sample 511 has gain `1 - 511/256`, which is negative |
| `Player.ReadPos` | examples/reverser.cpp:192-193 | the forward and backward read slots `(cursor + i) % bs` and `(cursor + bs - i) % bs` are slots of the ring |
| `Player.PlayCount` | examples/reverser.cpp:163-164 | `max` is at most the block length and at most the samples available in the playing direction, and equals one of the two |
| `Player.Mix` | examples/reverser.cpp:187-205 | sample `i < count` of the block gains the ring frame at its read slot, scaled by its gain; the other samples are unchanged |
| `Player.Play` | examples/reverser.cpp:149-206 | renders exactly `max` samples additively into the block and leaves the rest unchanged. The cursor moves up by exactly `max` forwards and down by exactly `max` backwards |
| `Player.PlayForwardStaysBehindHead` | examples/reverser.cpp:187-196 | forward sample `i` reads the `i`-th slot after the cursor, which is at least one slot short of `record_head`; afterwards the cursor is exactly `max` slots closer to it |
| `Player.PlayBackwardStaysAboveStart` | examples/reverser.cpp:197-205 | backward sample `i` reads a slot at least one slot past `record_start`; afterwards the cursor is exactly `max` slots closer to it |
| `Player.ShiftedCursor` | examples/reverser.cpp:195 | the unreduced cursor `cursor + max` is as far from `record_head` as the reduced slot |
| `Player.MinusAfterStepBack` | examples/reverser.cpp:204 | moving the unreduced cursor down by `max` shortens its distance to `record_start` by `max` |
| `Engine.Init` | examples/reverser.cpp:334-350 | the constructed state has a zeroed ring and both heads at 0. `last_action` is hold and the counter is 0. The uninitialised fields are parameters |
| `Engine.Commit` | examples/reverser.cpp:215-246 | nothing changes until 256 samples have passed. Then the counter resets to 0, `last_action`, `last_play_head` and the anchor are snapshotted, and the control becomes the action. Entering record sets `record_start := record_head`. Entering play from record seeds `play_head` from the direction. Hold, or play from anything else, changes no cursor |
| `Engine.FadeOutPass` | examples/reverser.cpp:254-257 | the abandoned cursor is faded out only when `last_action != action` and `last_action` is a play action; otherwise the block stays silent and the state unchanged. A fade-out renders exactly when its `play` call is defined; the block then opens with the `max` frames read from `last_play_head`, each scaled by the fade-out gain anchored at `last_play_head_at_action_change`, followed by silence, and `last_play_head` moves by `max` |
| `Engine.ActionPass` | examples/reverser.cpp:259-291 | a play action renders exactly when `last_action == action` (so without fade) and its `play` call is defined; it then adds the `max` ring frames read from `play_head` to the block and moves `play_head` by `max`. A play action that just changed fails on the fade-in assertion. Record always renders and uses the corrected recorder: slot `p` then holds input frame `minus(p, record_head)` when that is below `min(n, room)` with the corrected recorder's room, the head moves by that count modulo `bs`, and other slots keep their frames. Hold leaves state and block as they are |
| `Engine.Render` | examples/reverser.cpp:248-293 | the block is cleared first and has the input's length. It renders exactly when the fade-out (if any) and the play call (if any) are defined and no fade-in is reached. A fade-out block opens with the faded window of `last_play_head`; a play block is the window read from `play_head` at gain 1 followed by silence; a record block stores the input behind `record_head` through the corrected recorder (its room, its head reduced modulo `bs`); other blocks are silent. The counter grows by the block length. The action fields and `record_start` are untouched |
| `Engine.Run` | examples/reverser.cpp:213-294 | its state is the controller's commit with only the cursors an action moves changed: `action`, `last_action`, the anchor and `record_start` are the committed ones, `play_head` moves only under a play action and `last_play_head` only under a fade-out. After the commit the block renders exactly when no fade-in and no wrapping cursor is met; it records the input behind `record_head`, plays the window at `play_head`, or fades out the window at `last_play_head`, moving each cursor by `max`, and is otherwise silent. The counter becomes `(counter >= 256 ? 0 : counter) + samplecount`. Before 256 samples, no action field or anchor changes. With the corrected recorder, the record cursors stay inside the ring |
| `Engine.ControlIgnoredWhileDwelling` | examples/reverser.cpp:217-224 | within 256 samples of the last commit the action control has no effect on the block |
| `Engine.FreshPlayCommitFails` | examples/reverser.cpp:225-241 | committing a new play action fails; from a non-play action it fails on exactly the fade-in assertion |
| `Engine.RunRecordKeepsHeadOffStart` | examples/reverser.cpp:266-288 | after a non-empty record block in a ring of two or more slots, `record_head != record_start` |
| `Engine.RunKeepsSilent` | examples/reverser.cpp:249-263 | an engine with no play action current or previous stays so and outputs silence |
| `Engine.SilentEngineOutputsSilence` | examples/reverser.cpp:249-263 | over any sequence of blocks, such an engine outputs only zero frames |
| `Engine.ConstructedEngineNeverPlays` | examples/reverser.cpp:298-313 | from the constructed state, every sequence of blocks fails or outputs silence. A play action left in the uninitialised field fails on the first block |
| `Engine.PlayActionsAgree` | examples/reverser.cpp:232-233 | exchanging `ac_play_1` and `ac_play_2` in state and control exchanges them in the result and changes nothing else |
| `RoundTrip.RecordThenPlayForward` | examples/reverser.cpp:187-196 | a fresh record block played forwards from `record_start` returns the input exactly and stops at `record_head` |
| `RoundTrip.RecordThenPlayBackward` | examples/reverser.cpp:197-205 | a fresh record block played backwards from `record_head` returns the stale slot at `record_head` first, then the input reversed without its first sample |

## Findings

| source | as written | input that shows it | evidently intended | confidence | as-written member | corrected member |
|---|---|---|---|---|---|---|
| examples/reverser.cpp:282-286 | write index `record_head + i % bs()` and `record_head += max`, neither reduced modulo the ring | 4-slot ring, record re-entered at slot 2 (`record_start == record_head == 2`), 3-sample block: the third write goes to index 4 | index `(record_head + i) % bs`, head reduced modulo `bs` | not executed; high | `Recorder.RecordAsWrittenOverruns` | `Recorder.RecordBlock` |
| examples/reverser.cpp:272-277 | on an empty recording (`record_start == record_head`) the `- 1` wraps and the whole block is written | 4-slot ring, `record_start == record_head == 0`, 4-sample block: the head goes round to 4 and its distance to `record_start` is 0 again | at most `bs - 1` samples, so the head stays short of `record_start` | not executed; medium (needs a block as long as the ring) | `Recorder.EntryBlockFillsRingAsWritten` | `Recorder.RecordBlock` |

`Engine.Run` uses the corrected `Recorder.RecordBlock`.
`Recorder.RecordAgreesWhileInBounds` shows that whenever the as-written
recorder stays inside the ring, and a block entering an empty recording
is shorter than the ring, the two store the same frames and differ
only in the head's reduction modulo `bs`.
`Recorder.RecordAsWrittenFromStartZero` shows that they agree exactly
whenever recording starts at slot 0 and blocks are shorter than the ring.

## Left out

- Fade shaping in floating point: `fadein_length`, `apply_fade` (uses `cosf`) and the static `fadein`/`fadeout`. They are not called by `run()`. Gains and samples are exact reals, so `float` rounding is not modelled.
- The release-build behaviour of the fade-in branch, where the assertion is compiled out. The model stops with `FadeInAssertion`.
- The wrapped values `play` computes when its unsigned cursor arithmetic underflows. The model stops with `CursorUnderflow`. One such case is a backward play across a recording that wraps the end of the ring.
- Engine.Run: block lengths of `2^32` or more, where the source's cast to `unsigned` would truncate, are excluded by its precondition. Cursor overflow past `2^64` is not modelled.
- Engine.ActionPass: its record branch is the corrected `Recorder.RecordBlock`, not the code as written; see the `Engine.Run` line below.
- Engine.Render: it records through `Engine.ActionPass`, so its record blocks are the corrected recorder's; see the `Engine.Run` line below.
- Engine.Run: it records through the corrected `Recorder.RecordBlock`, not the code as written. `record_head` is reduced modulo `bs` after each block, where the source leaves it unreduced (`record_head += max`, which can reach `bs`). An empty recording's room is capped at `bs - 1`, where the source writes the whole block. Hence its promise that the record cursors stay inside the ring belongs to the corrected recorder. `Recorder.RecordAgreesWhileInBounds` states how far the two agree.
- Engine.Run: it requires `record_head` and `record_start` to be slots of the ring. The constructor leaves `record_start` uninitialised, so `Engine.Init` takes it as a parameter inside the ring.
- The constructor's resize loop, whose bound is `sizeof(buffer)` bytes rather than two elements. The model starts from a zeroed ring.
- `port()`, `activate`/`deactivate`, `reverser_descriptor` and `spa_descriptor`: port binding and plugin metadata.
- examples/test-host.cpp: dynamic loading, port binding and console I/O of the host.
- examples/gain.cpp and examples/test-gain.cpp: a single float multiply and its test.
- examples/step-repeater.cpp: its `run()` is empty.
- test/ringbuffer.cpp: it tests `spa::ringbuffer`, whose header is not part of this model.
- src/audio.cpp and src/spa.cpp: visitor boilerplate and destructors.
