/** The playback routine `play`: reads a window of the ring forwards or
    backwards from a cursor, adds it (times a fade gain) into the output
    block, and moves the cursor by the number of samples read.

    Cursors are not reduced modulo the ring: the forward cursor moves up by
    `+= max`, the backward one down by `-= max`, exactly as in the source.
 */
module Player {
  import opened Ring
  import opened Store

  /** Length of a full fade ramp, `fade_calc_length`. */
  const FadeCalcLength: nat := 256

  /** `fade_type`. */
  datatype Fade = NoFade | FadeIn | FadeOut

  /** `fade_start`: the gain of the first sample of the block. */
  function FadeStart(bs: nat, ft: Fade, cursor: nat, from: nat): real
    requires bs > 0
    requires ft != NoFade ==> from <= cursor + bs
  {
    match ft
    case NoFade => 1.0
    case FadeIn => Minus(bs, cursor, from) as real / FadeCalcLength as real
    case FadeOut => 1.0 - Minus(bs, cursor, from) as real / FadeCalcLength as real
  }

  /** `fade_delta`: the gain step from one sample to the next. */
  function FadeDelta(ft: Fade): real
  {
    match ft
    case NoFade => 0.0
    case FadeIn => 1.0 / FadeCalcLength as real
    case FadeOut => -1.0 / FadeCalcLength as real
  }

  /** Gain applied to output sample `i`: `fade_start + i * fade_delta`.
      Both ramps move by `1 / 256` per sample, starting from the forward
      distance `minus(cursor, from)` from the anchor `from` to the cursor.
      For a cursor that moves forwards this is how far it has come since the
      anchor (`GainContinuesForward`); for one that moves backwards it is not
      (`BackwardFadeOutJumps`). */
  function Gain(bs: nat, ft: Fade, cursor: nat, from: nat, i: nat): (g: real)
    requires bs > 0
    requires ft != NoFade ==> from <= cursor + bs
    ensures ft == NoFade ==> g == 1.0
    ensures ft == FadeIn ==> g == (Minus(bs, cursor, from) + i) as real / FadeCalcLength as real
    ensures ft == FadeOut ==> g == 1.0 - (Minus(bs, cursor, from) + i) as real / FadeCalcLength as real
  {
    FadeStart(bs, ft, cursor, from) + i as real * FadeDelta(ft)
  }

  /** A forward ramp continues across blocks: once the cursor has moved on
      by `k` samples, the next block's first gain is the gain sample `k` of
      this block would have had, as long as the cursor stays less than a
      ring's length past the anchor. */
  lemma GainContinuesForward(bs: nat, ft: Fade, cursor: nat, from: nat, k: nat)
    requires bs > 0 && from <= cursor + bs && Minus(bs, cursor, from) + k < bs
    ensures Gain(bs, ft, cursor + k, from, 0) == Gain(bs, ft, cursor, from, k)
  {
    var d := Minus(bs, cursor, from);
    var m := (cursor + bs - from) / bs;
    assert cursor + bs - from == m * bs + d;
    SameResidue(cursor + k + bs - from, d + k, m, bs);
    SmallResidue(d + k, bs);
  }

  /** A backward fade-out is not continuous: the ramp measures the forward
      distance from the anchor, so after a first block of `k` samples moved
      the cursor down from the anchor, the second block starts from distance
      `bs - k` instead of `k`. */
  lemma BackwardFadeOutJumps(bs: nat, from: nat, k: nat)
    requires 0 < k <= from < bs
    ensures Gain(bs, FadeOut, from, from, k) == 1.0 - k as real / FadeCalcLength as real
    ensures Gain(bs, FadeOut, from - k, from, 0) == 1.0 - (bs - k) as real / FadeCalcLength as real
  {
  }

  /** The fade-out ramp does not stop at 0: past `fade_calc_length` samples
      from the anchor the gain turns negative, and the ramp keeps falling
      for as long as the fade-out pass runs. */
  lemma FadeOutPassesZero(bs: nat, from: nat, i: nat)
    requires from < bs && i > FadeCalcLength
    ensures Gain(bs, FadeOut, from, from, i) < 0.0
  {
  }

  /** Within one 512-sample block of a fade-out anchored at the cursor,
      sample 511 has gain `1 - 511/256`. */
  lemma FadeOutBlockOf512()
    ensures Gain(1000, FadeOut, 10, 10, 511) == 1.0 - 511.0 / 256.0
    ensures Gain(1000, FadeOut, 10, 10, 511) < 0.0
  {
    FadeOutPassesZero(1000, 10, 511);
  }

  /** The source's ring length, `buffer_alloc_sz`. */
  const SourceRingSize: nat := 44100 * 8

  /** With the source's ring length, take a backward fade-out anchored at
      slot 1000 whose first block had 64 samples. A forward ramp would resume
      at gain 3/4 (the gain of sample 64); the backward one starts its second
      block at gain -1376.875. */
  lemma BackwardFadeOutAtSourceSize()
    ensures Gain(SourceRingSize, FadeOut, 1000, 1000, 64) == 0.75
    ensures Gain(SourceRingSize, FadeOut, 1000 - 64, 1000, 0) == -1376.875
  {
    BackwardFadeOutJumps(SourceRingSize, 1000, 64);
  }

  /** The ring slot output sample `i` is read from: `(cursor + i) % bs`
      forwards, `(cursor + bs - i) % bs` backwards. */
  function ReadPos(bs: nat, forward: bool, cursor: nat, i: nat): (p: nat)
    requires bs > 0
    requires !forward ==> i <= cursor + bs
    ensures p < bs
  {
    if forward then (cursor + i) % bs else (cursor + bs - i) % bs
  }

  /** Samples available in the playing direction: up to `record_head`
      forwards, down to `record_start` backwards. */
  function Available(bs: nat, forward: bool, cursor: nat, recordHead: nat, recordStart: nat): (r: nat)
    requires bs > 0
    requires forward ==> cursor <= recordHead + bs
    requires !forward ==> recordStart <= cursor + bs
    ensures r < bs
  {
    if forward then Minus(bs, recordHead, cursor) else Minus(bs, cursor, recordStart)
  }

  /** `max`: how many samples one call renders. */
  function PlayCount(bs: nat, forward: bool, cursor: nat, recordHead: nat, recordStart: nat, n: nat): (r: nat)
    requires bs > 0
    requires forward ==> cursor <= recordHead + bs
    requires !forward ==> recordStart <= cursor + bs
    ensures r <= n && r <= Available(bs, forward, cursor, recordHead, recordStart)
    ensures r == n || r == Available(bs, forward, cursor, recordHead, recordStart)
  {
    Min(Available(bs, forward, cursor, recordHead, recordStart), n)
  }

  /** What `play` relies on so that none of its unsigned computations wraps,
      and the `assert(false)` on the fade-in branch. */
  predicate PlayDefined(bs: nat, forward: bool, cursor: nat, recordHead: nat, recordStart: nat,
                        ft: Fade, from: nat, n: nat)
  {
    && bs > 0
    && ft != FadeIn
    && (ft == FadeOut ==> from <= cursor + bs)
    && (forward ==> cursor <= recordHead + bs)
    && (!forward ==> recordStart <= cursor + bs
                     && PlayCount(bs, forward, cursor, recordHead, recordStart, n) <= cursor)
  }

  /** `out` with the first `count` samples read from the ring, scaled by
      their gain, added in. */
  function Mix(ring: seq<Frame>, forward: bool, cursor: nat, ft: Fade, from: nat,
               out: seq<Frame>, count: nat): (r: seq<Frame>)
    requires 0 < |ring| && count <= |out|
    requires ft != NoFade ==> from <= cursor + |ring|
    requires !forward ==> count <= cursor + |ring|
    ensures |r| == |out|
    ensures forall i :: 0 <= i < |out| ==>
              r[i] == (if i < count
                       then Add(out[i], Scale(Gain(|ring|, ft, cursor, from, i), ring[ReadPos(|ring|, forward, cursor, i)]))
                       else out[i])
    decreases count
  {
    if count == 0 then out
    else
      var prev := Mix(ring, forward, cursor, ft, from, out, count - 1);
      var i := count - 1;
      prev[i := Add(out[i], Scale(Gain(|ring|, ft, cursor, from, i), ring[ReadPos(|ring|, forward, cursor, i)]))]
  }

  datatype Played = Played(out: seq<Frame>, cursor: nat)

  /** `play(from_this_buf, ft, from)` for the block length `|out|`: renders
      `max` samples additively into `out` and moves the cursor by `max`,
      up when playing forwards and down when playing backwards; the rest of
      the block is left as it was. */
  function Play(ring: seq<Frame>, recordHead: nat, recordStart: nat, forward: bool,
                cursor: nat, ft: Fade, from: nat, out: seq<Frame>): (r: Played)
    requires PlayDefined(|ring|, forward, cursor, recordHead, recordStart, ft, from, |out|)
    ensures |r.out| == |out|
    ensures var k := PlayCount(|ring|, forward, cursor, recordHead, recordStart, |out|);
            && (forward ==> r.cursor == cursor + k)
            && (!forward ==> r.cursor + k == cursor)
            && (forall i :: 0 <= i < |out| ==>
                  r.out[i] == (if i < k
                               then Add(out[i], Scale(Gain(|ring|, ft, cursor, from, i),
                                                      ring[ReadPos(|ring|, forward, cursor, i)]))
                               else out[i]))
  {
    var k := PlayCount(|ring|, forward, cursor, recordHead, recordStart, |out|);
    var mixed := Mix(ring, forward, cursor, ft, from, out, k);
    Played(mixed, if forward then cursor + k else cursor - k)
  }

  /** Forward play never reads `record_head`: output sample `i` comes from
      the `i`-th slot after the cursor, which is `Available - i >= 1` slots
      short of `record_head`, and afterwards the cursor is exactly `max`
      slots closer to it. */
  lemma PlayForwardStaysBehindHead(ring: seq<Frame>, recordHead: nat, recordStart: nat,
                                   cursor: nat, ft: Fade, from: nat, out: seq<Frame>)
    requires recordHead < |ring|
    requires PlayDefined(|ring|, true, cursor, recordHead, recordStart, ft, from, |out|)
    ensures var bs, k := |ring|, PlayCount(|ring|, true, cursor, recordHead, recordStart, |out|);
            var a := Minus(bs, recordHead, cursor);
            && (forall i :: 0 <= i < k ==>
                  ReadPos(bs, true, cursor, i) == Advance(bs, cursor, i)
                  && Minus(bs, recordHead, ReadPos(bs, true, cursor, i)) == a - i >= 1)
            && Play(ring, recordHead, recordStart, true, cursor, ft, from, out).cursor <= recordHead + bs
            && Minus(bs, recordHead, Play(ring, recordHead, recordStart, true, cursor, ft, from, out).cursor) == a - k
  {
    var bs, k := |ring|, PlayCount(|ring|, true, cursor, recordHead, recordStart, |out|);
    forall i | 0 <= i < k
      ensures Minus(bs, recordHead, ReadPos(bs, true, cursor, i)) == Minus(bs, recordHead, cursor) - i
    {
      MinusAfterAdvance(bs, recordHead, cursor, i);
    }
    MinusAfterAdvance(bs, recordHead, cursor, k);
    ShiftedCursor(bs, recordHead, cursor, k);
  }

  /** An unreduced cursor `b + k` is as far from `a` as the reduced slot. */
  lemma ShiftedCursor(bs: nat, a: nat, b: nat, k: nat)
    requires 0 < bs && b <= a + bs && k <= Minus(bs, a, b)
    ensures b + k <= a + bs
    ensures Minus(bs, a, b + k) == Minus(bs, a, Advance(bs, b, k))
  {
    var d := Minus(bs, a, b);
    var m := (a + bs - b) / bs;
    assert a + bs - b == m * bs + d;
    assert b + k <= a + bs by {
      if m > 1 {
        PositiveMultiple(m - 1, bs);
        assert m * bs == (m - 1) * bs + bs;
      }
    }
    var t := Advance(bs, b, k);
    var q := (b + k) / bs;
    assert b + k == q * bs + t;
    SameResidue(a + bs - (b + k), a + bs - t, -q, bs);
  }

  /** Backward play never reads `record_start`: output sample `i` comes from
      the `i`-th slot before the cursor (the cursor's own slot first), which
      is `Available - i >= 1` slots past `record_start`, and afterwards the
      cursor is exactly `max` slots closer to it. */
  lemma PlayBackwardStaysAboveStart(ring: seq<Frame>, recordHead: nat, recordStart: nat,
                                    cursor: nat, ft: Fade, from: nat, out: seq<Frame>)
    requires recordStart < |ring|
    requires PlayDefined(|ring|, false, cursor, recordHead, recordStart, ft, from, |out|)
    ensures var bs, k := |ring|, PlayCount(|ring|, false, cursor, recordHead, recordStart, |out|);
            var a := Minus(bs, cursor, recordStart);
            && (forall i :: 0 <= i < k ==>
                  Minus(bs, ReadPos(bs, false, cursor, i), recordStart) == a - i >= 1)
            && Minus(bs, Play(ring, recordHead, recordStart, false, cursor, ft, from, out).cursor, recordStart) == a - k
  {
    var bs, k := |ring|, PlayCount(|ring|, false, cursor, recordHead, recordStart, |out|);
    forall i | 0 <= i < k
      ensures Minus(bs, ReadPos(bs, false, cursor, i), recordStart) == Minus(bs, cursor, recordStart) - i
    {
      MinusAfterRetreat(bs, cursor, recordStart, i);
    }
    MinusAfterStepBack(bs, cursor, recordStart, k);
  }

  /** Moving an unreduced cursor `b` down by `i` shortens its distance to
      `c` by exactly `i`. */
  lemma MinusAfterStepBack(bs: nat, b: nat, c: nat, i: nat)
    requires 0 < bs && c < bs && i <= b && c <= b + bs && i <= Minus(bs, b, c)
    ensures Minus(bs, b - i, c) == Minus(bs, b, c) - i
  {
    var d := Minus(bs, b, c);
    var m := (b + bs - c) / bs;
    assert b + bs - c == m * bs + d;
    SameResidue(b - i + bs - c, d - i, m, bs);
    SmallResidue(d - i, bs);
  }
}
