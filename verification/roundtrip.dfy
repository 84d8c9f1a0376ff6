/** What playback returns after a single record block: recording into an
    empty recording and then playing it back with no fade. */
module RoundTrip {
  import opened Ring
  import opened Store
  import opened Recorder
  import opened Player

  /** Played forwards from `record_start`, a fresh recording comes back
      sample for sample, and the cursor ends up at `record_head`. */
  lemma RecordThenPlayForward(ring: seq<Frame>, start: nat, input: seq<Frame>)
    requires 0 < |input| < |ring| && start < |ring|
    ensures var rec := RecordBlock(ring, start, start, input);
            && PlayDefined(|ring|, true, start, rec.head, start, NoFade, 0, |input|)
            && Play(rec.ring, rec.head, start, true, start, NoFade, 0, Silence(|input|)).out == input
            && Minus(|ring|, rec.head, Play(rec.ring, rec.head, start, true, start, NoFade, 0, Silence(|input|)).cursor) == 0
  {
    var bs, n := |ring|, |input|;
    var rec := RecordBlock(ring, start, start, input);
    assert Minus(bs, rec.head, start) == n;
    var played := Play(rec.ring, rec.head, start, true, start, NoFade, 0, Silence(n));
    forall i | 0 <= i < n
      ensures played.out[i] == input[i]
    {
      MinusAdvance(bs, start, i);
      assert ReadPos(bs, true, start, i) == Advance(bs, start, i);
    }
    PlayForwardStaysBehindHead(rec.ring, rec.head, start, start, NoFade, 0, Silence(n));
  }

  /** Played backwards from `record_head`, a fresh recording comes back
      reversed but shifted by one slot: the first output sample is the slot
      at `record_head` itself, which the recording did not write, and the
      first recorded sample (at `record_start`) is never played. */
  lemma RecordThenPlayBackward(ring: seq<Frame>, start: nat, input: seq<Frame>)
    requires 0 < |input| && start + |input| < |ring|
    ensures var rec, head := RecordBlock(ring, start, start, input), start + |input|;
            && rec.head == head
            && PlayDefined(|ring|, false, head, head, start, NoFade, 0, |input|)
            && var out := Play(rec.ring, head, start, false, head, NoFade, 0, Silence(|input|)).out;
               && out[0] == ring[head]
               && forall i :: 1 <= i < |input| ==> out[i] == input[|input| - i]
  {
    var n := |input|;
    var rec := RecordBlock(ring, start, start, input);
    FreshRecordSlot(ring, start, input, n);
    BackwardFromHead(rec.ring, start, n);
    var out := Play(rec.ring, start + n, start, false, start + n, NoFade, 0, Silence(n)).out;
    forall i | 1 <= i < n
      ensures out[i] == input[n - i]
    {
      FreshRecordSlot(ring, start, input, n - i);
    }
  }

  /** Played backwards from slot `start + n` down to `start`, a block of
      `n` samples reads the slot `start + n` first and then the slots below
      it, each at gain 1. */
  lemma BackwardFromHead(ring: seq<Frame>, start: nat, n: nat)
    requires 0 < n && start + n < |ring|
    ensures PlayDefined(|ring|, false, start + n, start + n, start, NoFade, 0, n)
    ensures var out := Play(ring, start + n, start, false, start + n, NoFade, 0, Silence(n)).out;
            && out[0] == ring[start + n]
            && forall i :: 1 <= i < n ==> out[i] == ring[start + n - i]
  {
    var bs := |ring|;
    assert Minus(bs, start + n, start) == n;
    var out := Play(ring, start + n, start, false, start + n, NoFade, 0, Silence(n)).out;
    UnitGain();
    SmallResidue(start + n, bs);
    SameResidue(start + n + bs, start + n, 1, bs);
    assert ReadPos(bs, false, start + n, 0) == start + n;
    forall i | 1 <= i < n
      ensures out[i] == ring[start + n - i]
    {
      SameResidue(start + n + bs - i, start + n - i, 1, bs);
      SmallResidue(start + n - i, bs);
      assert ReadPos(bs, false, start + n, i) == start + n - i;
    }
  }

  /** A fresh record block that does not reach the end of the ring fills
      the slots from `record_start` on, in order, and stops with the head on
      the next slot, which keeps its old frame: slot `start + j` holds input
      frame `j`. */
  lemma FreshRecordSlot(ring: seq<Frame>, start: nat, input: seq<Frame>, j: nat)
    requires 0 < |input| && start + |input| < |ring| && j <= |input|
    ensures var rec := RecordBlock(ring, start, start, input);
            && rec.head == start + |input|
            && rec.ring[start + j] == (if j < |input| then input[j] else ring[start + j])
  {
    var bs, n := |ring|, |input|;
    assert Room(bs, start, start) == bs - 1;
    var rec := RecordBlock(ring, start, start, input);
    assert Minus(bs, rec.head, start) == n;
    SmallResidue(start + n, bs);
    assert rec.head == start + n;
    assert Minus(bs, start + j, start) == j;
  }
}
