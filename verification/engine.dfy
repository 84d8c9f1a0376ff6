/** The reverser engine: its cursor state and the per-block step `run()`.

    `run()` first commits the requested action if the debounce counter
    allows it, then clears the output block, renders a fade-out of the
    abandoned play cursor if a play action just ended, and finally records,
    plays or holds according to the committed action.

    Two outcomes leave the behaviour the C++ defines, and the model reports
    them instead of continuing: the `assert(false)` on the fade-in branch of
    `play` (a debug build aborts there), and a cursor computation in `play`
    that would wrap its unsigned arithmetic.
 */
module Engine {
  import opened Ring
  import opened Store
  import opened Actions
  import opened Recorder
  import opened Player

  /** `minimal_action_change`: samples that must pass between two commits. */
  const MinimalActionChange: nat := 256

  /** The fields of `class reverser` that `run()` reads and writes. The ring
      is `buffer[0]`/`buffer[1]`; its length is `bs()`. */
  datatype State = State(
    ring: seq<Frame>,
    recordHead: nat,      // record_head: next slot to record into
    recordStart: nat,     // record_start: where the current recording started
    playHead: nat,        // play_head: next slot to play
    lastPlayHead: nat,    // last_play_head: cursor of the abandoned play action
    anchor: nat,          // last_play_head_at_action_change
    action: Action,       // action: the committed ("lazy") action
    lastAction: Action,   // last_action: the action before the last commit
    sinceChange: nat      // last_action_change: samples since the last commit
  )
  {
    /** The ring is non-empty and both record cursors name a slot of it. */
    predicate Valid()
    {
      0 < |ring| && recordHead < |ring| && recordStart < |ring|
    }
  }

  /** Why a block could not be rendered within defined behaviour. */
  datatype Fault =
    | FadeInAssertion   // `assert(false)` on the `fade_in` branch of `play`
    | CursorUnderflow   // a `play` call whose unsigned cursor arithmetic would wrap

  datatype Outcome = Rendered(state: State, out: seq<Frame>) | Failed(fault: Fault)

  /** The state right after construction: zeroed ring, both heads at slot 0,
      `last_action == ac_hold`, counter 0. The fields the constructor leaves
      uninitialised are parameters. */
  function Init(bs: nat, recordStart: nat, lastPlayHead: nat, anchor: nat, action: Action): (s: State)
    requires 0 < bs && recordStart < bs
    ensures s.Valid() && |s.ring| == bs
    ensures forall p :: 0 <= p < bs ==> s.ring[p] == Zero
    ensures s.recordHead == 0 && s.playHead == 0 && s.sinceChange == 0 && s.lastAction == Hold
  {
    State(Silence(bs), 0, recordStart, 0, lastPlayHead, anchor, action, Hold, 0)
  }

  /** The debounced action controller (the first `if` of `run()`).

      Before `minimal_action_change` samples have passed it changes nothing.
      Afterwards it always commits: the counter restarts, the previous action
      and the play cursor are remembered, and the control value becomes the
      action. Only a real change of action touches a cursor: entering record
      anchors `record_start` at `record_head`; entering play straight from
      record puts the play cursor at the recording's start (forwards) or
      end (backwards). */
  function Commit(s: State, control: int, forward: bool): (r: State)
    requires s.Valid()
    ensures r.Valid()
    ensures r.ring == s.ring && r.recordHead == s.recordHead
    ensures s.sinceChange < MinimalActionChange ==> r == s
    ensures s.sinceChange >= MinimalActionChange ==>
              && r.sinceChange == 0
              && r.lastAction == s.action
              && r.action == FromControl(control)
              && r.lastPlayHead == s.playHead
              && r.anchor == s.playHead
    ensures s.sinceChange >= MinimalActionChange ==>
              r.recordStart == (if r.action == Record && s.action != Record then s.recordHead else s.recordStart)
    ensures s.sinceChange >= MinimalActionChange ==>
              r.playHead == (if r.action.IsPlay() && s.action == Record
                             then (if forward then s.recordStart else s.recordHead)
                             else s.playHead)
  {
    if s.sinceChange < MinimalActionChange then s
    else
      var c := s.(sinceChange := 0, lastAction := s.action, lastPlayHead := s.playHead,
                  anchor := s.playHead, action := FromControl(control));
      if c.action == c.lastAction then c
      else
        match c.action
        case Record => c.(recordStart := c.recordHead)
        case Play1 | Play2 =>
          if c.lastAction == Record then c.(playHead := if forward then c.recordStart else c.recordHead)
          else c
        case _ => c
  }

  /** True when `run()` renders the fade-out pass for the abandoned cursor. */
  predicate FadesOut(s: State)
  {
    s.lastAction != s.action && s.lastAction.IsPlay()
  }

  /** The fade-out call `play(last_play_head, fade_out, ...)` stays within
      defined behaviour. */
  predicate FadeOutDefined(s: State, n: nat, forward: bool)
  {
    PlayDefined(|s.ring|, forward, s.lastPlayHead, s.recordHead, s.recordStart, FadeOut, s.anchor, n)
  }

  /** The continuing play call `play(play_head, no_fade)` stays within
      defined behaviour. */
  predicate PlayOnDefined(s: State, n: nat, forward: bool)
  {
    PlayDefined(|s.ring|, forward, s.playHead, s.recordHead, s.recordStart, NoFade, 0, n)
  }

  /** `max` of the fade-out call. */
  function FadeOutCount(s: State, n: nat, forward: bool): nat
    requires FadeOutDefined(s, n, forward)
  {
    PlayCount(|s.ring|, forward, s.lastPlayHead, s.recordHead, s.recordStart, n)
  }

  /** `max` of the continuing play call. */
  function PlayOnCount(s: State, n: nat, forward: bool): nat
    requires PlayOnDefined(s, n, forward)
  {
    PlayCount(|s.ring|, forward, s.playHead, s.recordHead, s.recordStart, n)
  }

  /** A block renders exactly when neither a fade-in nor a wrapping cursor
      is met: a fade-out, if any, is defined, and a play action has not just
      changed and its call is defined. */
  predicate RenderDefined(s: State, n: nat, forward: bool)
  {
    && (FadesOut(s) ==> FadeOutDefined(s, n, forward))
    && (s.action.IsPlay() ==> s.lastAction == s.action && PlayOnDefined(s, n, forward))
  }

  /** `out` opens with the `k` ring frames read from `cursor` in the playing
      direction, each scaled by its gain under fade `ft` anchored at `from`,
      and is silent after them. */
  predicate ReadsWindow(ring: seq<Frame>, forward: bool, cursor: nat, ft: Fade, from: nat, k: nat,
                        out: seq<Frame>)
    requires 0 < |ring| && (ft != NoFade ==> from <= cursor + |ring|) && (!forward ==> k <= cursor + |ring|)
  {
    forall i :: 0 <= i < |out| ==>
      out[i] == (if i < k then Scale(Gain(|ring|, ft, cursor, from, i), ring[ReadPos(|ring|, forward, cursor, i)])
                 else Zero)
  }

  /** `r` holds `s`'s ring after `input` is recorded at `record_head`: the
      head has moved forward by `min(|input|, room)` slots, those slots hold
      the input in order, and every other slot is as it was. */
  predicate RecordedInto(s: State, input: seq<Frame>, r: State)
    requires s.Valid()
  {
    var bs := |s.ring|;
    && |r.ring| == bs && r.recordHead < bs
    && Minus(bs, r.recordHead, s.recordHead) == Min(|input|, Room(bs, s.recordStart, s.recordHead))
    && forall p :: 0 <= p < bs ==>
         r.ring[p] == (if Minus(bs, p, s.recordHead) < Minus(bs, r.recordHead, s.recordHead)
                       then input[Minus(bs, p, s.recordHead)] else s.ring[p])
  }

  /** The fade-out pass (`play(last_play_head, fade_out, ...)`) on the
      silenced block, when a play action was just abandoned; otherwise the
      silent block and the state unchanged. The fade-out reads `max` frames
      from `last_play_head`, ramps them down from the anchor
      `last_play_head_at_action_change`, and moves `last_play_head` by
      `max`. */
  function FadeOutPass(s: State, n: nat, forward: bool): (o: Outcome)
    requires s.Valid()
    ensures o.Rendered? ==> |o.out| == n && o.state == s.(lastPlayHead := o.state.lastPlayHead)
    ensures o.Rendered? && !FadesOut(s) ==> o == Rendered(s, Silence(n))
    ensures o.Failed? ==> FadesOut(s) && o.fault == CursorUnderflow
    ensures FadesOut(s) ==> (o.Rendered? <==> FadeOutDefined(s, n, forward))
    ensures FadesOut(s) && FadeOutDefined(s, n, forward) ==>
              && o.Rendered?
              && (forward ==> o.state.lastPlayHead == s.lastPlayHead + FadeOutCount(s, n, forward))
              && (!forward ==> o.state.lastPlayHead + FadeOutCount(s, n, forward) == s.lastPlayHead)
              && ReadsWindow(s.ring, forward, s.lastPlayHead, FadeOut, s.anchor, FadeOutCount(s, n, forward), o.out)
  {
    if !FadesOut(s) then Rendered(s, Silence(n))
    else if !FadeOutDefined(s, n, forward) then
      Failed(CursorUnderflow)
    else
      var faded := Play(s.ring, s.recordHead, s.recordStart, forward, s.lastPlayHead, FadeOut, s.anchor, Silence(n));
      UnitGain();
      Rendered(s.(lastPlayHead := faded.cursor), faded.out)
  }

  /** The `switch(action)` of `run()` on the partly rendered block `out`.
      A play action plays without fade exactly when it did not just change,
      adding `max` ring frames to the block and moving `play_head` by `max`;
      record stores the input behind `record_head`; any other action leaves
      everything as it is. */
  function ActionPass(s: State, input: seq<Frame>, forward: bool, out: seq<Frame>): (o: Outcome)
    requires s.Valid() && |out| == |input|
    ensures o.Rendered? ==>
              && o.state.Valid() && |o.out| == |input| && |o.state.ring| == |s.ring|
              && o.state == s.(ring := o.state.ring, recordHead := o.state.recordHead, playHead := o.state.playHead)
    ensures o.Rendered? && !s.action.IsPlay() ==> o.state.playHead == s.playHead && o.out == out
    ensures o.Rendered? && s.action != Record ==> o.state.ring == s.ring && o.state.recordHead == s.recordHead
    ensures s.action.IsPlay() ==>
              (o.Rendered? <==> s.lastAction == s.action && PlayOnDefined(s, |out|, forward))
    ensures s.action.IsPlay() && s.lastAction != s.action ==> o == Failed(FadeInAssertion)
    ensures s.action.IsPlay() && s.lastAction == s.action && !PlayOnDefined(s, |out|, forward) ==>
              o == Failed(CursorUnderflow)
    ensures s.action.IsPlay() && s.lastAction == s.action && PlayOnDefined(s, |out|, forward) ==>
              && o.Rendered?
              && (forward ==> o.state.playHead == s.playHead + PlayOnCount(s, |out|, forward))
              && (!forward ==> o.state.playHead + PlayOnCount(s, |out|, forward) == s.playHead)
              && forall i :: 0 <= i < |out| ==>
                   o.out[i] == (if i < PlayOnCount(s, |out|, forward)
                                then Add(out[i], s.ring[ReadPos(|s.ring|, forward, s.playHead, i)])
                                else out[i])
    ensures s.action == Record ==> o.Rendered? && o.out == out && RecordedInto(s, input, o.state)
    ensures !s.action.IsPlay() && s.action != Record ==> o == Rendered(s, out)
  {
    match s.action
    case Play1 | Play2 =>
      if s.lastAction != s.action then Failed(FadeInAssertion)
      else if !PlayOnDefined(s, |out|, forward) then
        Failed(CursorUnderflow)
      else
        var played := Play(s.ring, s.recordHead, s.recordStart, forward, s.playHead, NoFade, 0, out);
        UnitGain();
        Rendered(s.(playHead := played.cursor), played.out)
    case Record =>
      var rec := RecordBlock(s.ring, s.recordStart, s.recordHead, input);
      Rendered(s.(ring := rec.ring, recordHead := rec.head), out)
    case _ =>
      Rendered(s, out)
  }

  /** Everything after the controller in `run()`: silence the block, fade out
      the abandoned cursor, record/play/hold, and advance the counter by the
      block length. The block renders exactly when `RenderDefined` holds;
      it then holds the fade-out window or the play window (never both, as a
      fade-out means the action just changed), and a record block stores
      the input. */
  function Render(s: State, input: seq<Frame>, forward: bool): (o: Outcome)
    requires s.Valid()
    ensures o.Rendered? ==>
              && o.state.Valid()
              && |o.out| == |input|
              && |o.state.ring| == |s.ring|
              && o.state.recordStart == s.recordStart
              && o.state.action == s.action && o.state.lastAction == s.lastAction
              && o.state.anchor == s.anchor
              && o.state.sinceChange == s.sinceChange + |input|
    ensures o.Rendered? && !FadesOut(s) ==> o.state.lastPlayHead == s.lastPlayHead
    ensures o.Rendered? && !s.action.IsPlay() ==> o.state.playHead == s.playHead
    ensures o.Rendered? && s.action != Record ==>
              o.state.ring == s.ring && o.state.recordHead == s.recordHead
    ensures o.Rendered? && !FadesOut(s) && !s.action.IsPlay() ==> o.out == Silence(|input|)
    ensures o.Rendered? <==> RenderDefined(s, |input|, forward)
    ensures s.action.IsPlay() && s.lastAction != s.action && !s.lastAction.IsPlay() ==>
              o == Failed(FadeInAssertion)
    ensures o.Rendered? && s.action == Record ==> RecordedInto(s, input, o.state)
    ensures o.Rendered? && FadesOut(s) ==>
              && FadeOutDefined(s, |input|, forward)
              && (forward ==> o.state.lastPlayHead == s.lastPlayHead + FadeOutCount(s, |input|, forward))
              && (!forward ==> o.state.lastPlayHead + FadeOutCount(s, |input|, forward) == s.lastPlayHead)
              && ReadsWindow(s.ring, forward, s.lastPlayHead, FadeOut, s.anchor, FadeOutCount(s, |input|, forward), o.out)
    ensures o.Rendered? && s.action.IsPlay() ==>
              && PlayOnDefined(s, |input|, forward)
              && (forward ==> o.state.playHead == s.playHead + PlayOnCount(s, |input|, forward))
              && (!forward ==> o.state.playHead + PlayOnCount(s, |input|, forward) == s.playHead)
              && ReadsWindow(s.ring, forward, s.playHead, NoFade, 0, PlayOnCount(s, |input|, forward), o.out)
  {
    var faded := FadeOutPass(s, |input|, forward);
    if faded.Failed? then Failed(faded.fault)
    else
      var acted := ActionPass(faded.state, input, forward, faded.out);
      if acted.Failed? then Failed(acted.fault)
      else
        RenderWindow(s, input, forward, faded, acted);
        Rendered(acted.state.(sinceChange := s.sinceChange + |input|), acted.out)
  }

  /** The windows `Render` promises, from the contracts of its two passes:
      a fade-out pass leaves its window in place under a non-play action,
      and a play pass adds its window to the silent block. */
  lemma RenderWindow(s: State, input: seq<Frame>, forward: bool, faded: Outcome, acted: Outcome)
    requires s.Valid() && faded == FadeOutPass(s, |input|, forward) && faded.Rendered?
    requires acted == ActionPass(faded.state, input, forward, faded.out) && acted.Rendered?
    ensures FadesOut(s) ==>
              && FadeOutDefined(s, |input|, forward)
              && ReadsWindow(s.ring, forward, s.lastPlayHead, FadeOut, s.anchor, FadeOutCount(s, |input|, forward), acted.out)
    ensures s.action.IsPlay() ==>
              && PlayOnDefined(s, |input|, forward)
              && (forward ==> acted.state.playHead == s.playHead + PlayOnCount(s, |input|, forward))
              && (!forward ==> acted.state.playHead + PlayOnCount(s, |input|, forward) == s.playHead)
              && ReadsWindow(s.ring, forward, s.playHead, NoFade, 0, PlayOnCount(s, |input|, forward), acted.out)
  {
    if s.action.IsPlay() {
      assert !FadesOut(s);
      assert faded == Rendered(s, Silence(|input|));
      UnitGain();
    }
  }

  /** `run()` for one block: `input` holds the block's `samplecount` input
      frames, `control` is the action control and `forward` the direction
      control. Once the controller has committed (state `c`), the block
      renders exactly when `RenderDefined(c)` holds, a record block stores
      the input behind `record_head`, a fade-out block opens with the
      abandoned cursor's faded window, and a play block is the window read
      from `play_head` at full gain. */
  function Run(s: State, input: seq<Frame>, control: int, forward: bool): (o: Outcome)
    requires s.Valid() && |input| < UnsignedLimit
    ensures o.Rendered? ==> o.state.Valid() && |o.out| == |input| && |o.state.ring| == |s.ring|
    ensures o.Rendered? ==>
              o.state.sinceChange == (if s.sinceChange >= MinimalActionChange then 0 else s.sinceChange) + |input|
    ensures o.Rendered? && s.sinceChange < MinimalActionChange ==>
              && o.state.action == s.action
              && o.state.lastAction == s.lastAction
              && o.state.anchor == s.anchor
              && o.state.recordStart == s.recordStart
    ensures var c := Commit(s, control, forward);
            && (o.Rendered? <==> RenderDefined(c, |input|, forward))
            && (o.Rendered? ==>
                  && o.state.action == c.action && o.state.lastAction == c.lastAction
                  && o.state.anchor == c.anchor && o.state.recordStart == c.recordStart)
            && (o.Rendered? && !c.action.IsPlay() ==> o.state.playHead == c.playHead)
            && (o.Rendered? && !FadesOut(c) ==> o.state.lastPlayHead == c.lastPlayHead)
            && (o.Rendered? && c.action == Record ==> RecordedInto(c, input, o.state))
            && (o.Rendered? && c.action != Record ==> o.state.ring == s.ring && o.state.recordHead == s.recordHead)
            && (o.Rendered? && FadesOut(c) ==>
                  ReadsWindow(c.ring, forward, c.lastPlayHead, FadeOut, c.anchor, FadeOutCount(c, |input|, forward), o.out))
            && (o.Rendered? && c.action.IsPlay() ==>
                  && ReadsWindow(c.ring, forward, c.playHead, NoFade, 0, PlayOnCount(c, |input|, forward), o.out)
                  && (forward ==> o.state.playHead == c.playHead + PlayOnCount(c, |input|, forward))
                  && (!forward ==> o.state.playHead + PlayOnCount(c, |input|, forward) == c.playHead))
            && (o.Rendered? && FadesOut(c) ==>
                  && (forward ==> o.state.lastPlayHead == c.lastPlayHead + FadeOutCount(c, |input|, forward))
                  && (!forward ==> o.state.lastPlayHead + FadeOutCount(c, |input|, forward) == c.lastPlayHead))
            && (o.Rendered? && !FadesOut(c) && !c.action.IsPlay() ==> o.out == Silence(|input|))
  {
    Render(Commit(s, control, forward), input, forward)
  }

  /** Debounce: while fewer than `minimal_action_change` samples have passed
      since the last commit, the action control has no effect on the block,
      so a change requested and withdrawn within that time never commits. */
  lemma ControlIgnoredWhileDwelling(s: State, input: seq<Frame>, control: int, other: int, forward: bool)
    requires s.Valid() && |input| < UnsignedLimit
    requires s.sinceChange < MinimalActionChange
    ensures Run(s, input, control, forward) == Run(s, input, other, forward)
  {
  }

  /** Committing a play action that differs from the current one reaches the
      `assert(false)` of the fade-in branch, unless the fade-out pass of a
      previous play action fails first. */
  lemma FreshPlayCommitFails(s: State, input: seq<Frame>, control: int, forward: bool)
    requires s.Valid() && |input| < UnsignedLimit
    requires s.sinceChange >= MinimalActionChange
    requires FromControl(control).IsPlay() && FromControl(control) != s.action
    ensures Run(s, input, control, forward).Failed?
    ensures !s.action.IsPlay() ==> Run(s, input, control, forward) == Failed(FadeInAssertion)
  {
  }

  /** A recording never catches up with its own start: after a block is
      recorded (with at least one input frame, in a ring of two or more
      slots), `record_head` and `record_start` differ, whether the block
      continues a recording or starts one. */
  lemma RunRecordKeepsHeadOffStart(s: State, input: seq<Frame>, control: int, forward: bool)
    requires s.Valid() && |input| < UnsignedLimit
    requires |input| > 0 && |s.ring| > 1
    requires Commit(s, control, forward).action == Record
    ensures Run(s, input, control, forward).Rendered? ==>
              Run(s, input, control, forward).state.recordHead != Run(s, input, control, forward).state.recordStart
  {
    var c := Commit(s, control, forward);
    var rec := RecordBlock(c.ring, c.recordStart, c.recordHead, input);
    assert Minus(|c.ring|, c.recordStart, rec.head) >= 1;
  }

  /** The engine is "silent" when neither the committed nor the previous
      action plays. */
  predicate Silent(s: State)
  {
    !s.action.IsPlay() && !s.lastAction.IsPlay()
  }

  /** A silent engine that renders a block stays silent and outputs silence:
      any commit into a play action fails on the fade-in assertion. */
  lemma RunKeepsSilent(s: State, input: seq<Frame>, control: int, forward: bool)
    requires s.Valid() && |input| < UnsignedLimit && Silent(s)
    requires Run(s, input, control, forward).Rendered?
    ensures Silent(Run(s, input, control, forward).state)
    ensures Run(s, input, control, forward).out == Silence(|input|)
  {
    var c := Commit(s, control, forward);
    assert !c.lastAction.IsPlay();
    assert !c.action.IsPlay();
  }

  /** One call of `run()` with its port values. */
  datatype Block = Block(input: seq<Frame>, control: int, forward: bool)

  predicate Admissible(blocks: seq<Block>)
  {
    forall j :: 0 <= j < |blocks| ==> |blocks[j].input| < UnsignedLimit
  }

  /** Total length of the blocks' inputs. */
  function TotalLength(blocks: seq<Block>): nat
  {
    if blocks == [] then 0 else |blocks[0].input| + TotalLength(blocks[1..])
  }

  /** `run()` called once per block; the outputs are concatenated. The first
      fault ends the sequence. */
  function RunBlocks(s: State, blocks: seq<Block>): (o: Outcome)
    requires s.Valid() && Admissible(blocks)
    ensures o.Rendered? ==> o.state.Valid() && |o.out| == TotalLength(blocks) && |o.state.ring| == |s.ring|
    decreases |blocks|
  {
    if blocks == [] then Rendered(s, [])
    else
      var b := blocks[0];
      match Run(s, b.input, b.control, b.forward)
      case Failed(f) => Failed(f)
      case Rendered(s1, out1) =>
        assert Admissible(blocks[1..]) by {
          forall j | 0 <= j < |blocks[1..]|
            ensures |blocks[1..][j].input| < UnsignedLimit
          {
            assert blocks[1..][j] == blocks[j + 1];
          }
        }
        match RunBlocks(s1, blocks[1..])
        case Failed(f) => Failed(f)
        case Rendered(s2, out2) => Rendered(s2, out1 + out2)
  }

  /** Every block a silent engine renders, over any number of calls, is
      silence. */
  lemma {:induction false} SilentEngineOutputsSilence(s: State, blocks: seq<Block>)
    requires s.Valid() && Admissible(blocks) && Silent(s)
    requires RunBlocks(s, blocks).Rendered?
    ensures forall i :: 0 <= i < |RunBlocks(s, blocks).out| ==> RunBlocks(s, blocks).out[i] == Zero
    decreases |blocks|
  {
    if blocks != [] {
      var b := blocks[0];
      assert |b.input| < UnsignedLimit;
      var o1 := Run(s, b.input, b.control, b.forward);
      RunKeepsSilent(s, b.input, b.control, b.forward);
      assert Admissible(blocks[1..]) by {
        forall j | 0 <= j < |blocks[1..]|
          ensures |blocks[1..][j].input| < UnsignedLimit
        {
          assert blocks[1..][j] == blocks[j + 1];
        }
      }
      SilentEngineOutputsSilence(o1.state, blocks[1..]);
    }
  }

  /** A debug build never produces sound: from the constructed state, every
      sequence of blocks either reaches the fade-in assertion or outputs
      nothing but silence. If the uninitialised `action` happens to be a play
      action, the very first block already fails. */
  lemma ConstructedEngineNeverPlays(bs: nat, recordStart: nat, lastPlayHead: nat, anchor: nat,
                                    action: Action, blocks: seq<Block>)
    requires 0 < bs && recordStart < bs && Admissible(blocks)
    ensures var s := Init(bs, recordStart, lastPlayHead, anchor, action);
            RunBlocks(s, blocks).Rendered? ==>
              forall i :: 0 <= i < |RunBlocks(s, blocks).out| ==> RunBlocks(s, blocks).out[i] == Zero
    ensures action.IsPlay() && blocks != [] ==>
              RunBlocks(Init(bs, recordStart, lastPlayHead, anchor, action), blocks) == Failed(FadeInAssertion)
  {
    var s := Init(bs, recordStart, lastPlayHead, anchor, action);
    if !action.IsPlay() {
      if RunBlocks(s, blocks).Rendered? {
        SilentEngineOutputsSilence(s, blocks);
      }
    } else if blocks != [] {
      assert |blocks[0].input| < UnsignedLimit;
    }
  }

  /** Exchanges the play actions throughout a state. */
  function SwapState(s: State): (r: State)
    ensures r.Valid() <==> s.Valid()
  {
    s.(action := SwapPlay(s.action), lastAction := SwapPlay(s.lastAction))
  }

  /** Exchanges the control values of the two play actions. */
  function SwapControl(control: int): (c: int)
    ensures FromControl(c) == SwapPlay(FromControl(control))
  {
    if control == 2 then 3 else if control == 3 then 2 else control
  }

  function SwapOutcome(o: Outcome): Outcome
  {
    match o
    case Rendered(s, out) => Rendered(SwapState(s), out)
    case Failed(f) => Failed(f)
  }

  /** `ac_play_1` and `ac_play_2` behave identically: exchanging them in the
      state and in the control exchanges them in the result and changes
      nothing else; the direction comes from `forward` alone. */
  lemma PlayActionsAgree(s: State, input: seq<Frame>, control: int, forward: bool)
    requires s.Valid() && |input| < UnsignedLimit
    ensures Run(SwapState(s), input, SwapControl(control), forward) == SwapOutcome(Run(s, input, control, forward))
  {
    CommitSwap(s, control, forward);
    RenderSwap(Commit(s, control, forward), input, forward);
  }

  lemma CommitSwap(s: State, control: int, forward: bool)
    requires s.Valid()
    ensures Commit(SwapState(s), SwapControl(control), forward) == SwapState(Commit(s, control, forward))
  {
    if s.sinceChange >= MinimalActionChange {
      var a := FromControl(control);
      assert SwapPlay(a) == SwapPlay(s.action) <==> a == s.action;
      assert (SwapPlay(a) == Record) == (a == Record);
      assert (SwapPlay(s.action) == Record) == (s.action == Record);
    }
  }

  lemma FadeOutPassSwap(s: State, n: nat, forward: bool)
    requires s.Valid()
    ensures FadeOutPass(SwapState(s), n, forward) == SwapOutcome(FadeOutPass(s, n, forward))
  {
    assert FadesOut(SwapState(s)) == FadesOut(s);
  }

  lemma ActionPassSwap(s: State, input: seq<Frame>, forward: bool, out: seq<Frame>)
    requires s.Valid() && |out| == |input|
    ensures ActionPass(SwapState(s), input, forward, out) == SwapOutcome(ActionPass(s, input, forward, out))
  {
    match s.action
    case Play1 =>
    case Play2 =>
    case Record =>
    case Hold =>
    case Unlisted(_) =>
  }

  lemma RenderSwap(s: State, input: seq<Frame>, forward: bool)
    requires s.Valid()
    ensures Render(SwapState(s), input, forward) == SwapOutcome(Render(s, input, forward))
  {
    FadeOutPassSwap(s, |input|, forward);
    var o1 := FadeOutPass(s, |input|, forward);
    if o1.Rendered? {
      ActionPassSwap(o1.state, input, forward, o1.out);
    }
  }
}
