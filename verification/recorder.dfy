/** The record engine: copies an input block into the ring at `record_head`
    without letting the head catch up with `record_start`.

    `RecordBlockAsWritten` follows the C++ statement by statement; `RecordBlock` is the
    corrected recorder the engine uses (see the findings in README.md).
 */
module Recorder {
  import opened Ring
  import opened Store

  /** The largest `std::size_t`. */
  const SizeMax: nat := 0xFFFF_FFFF_FFFF_FFFF

  /** The block length is cast to `unsigned` before use. */
  const UnsignedLimit: nat := 0x1_0000_0000

  /** `x - 1` on `std::size_t`: zero wraps around to the largest value. */
  function SizeDecrement(x: nat): (r: nat)
    requires x <= SizeMax
    ensures r <= SizeMax
    ensures r == (x + SizeMax) % (SizeMax + 1)
  {
    if x == 0 then
      SmallResidue(SizeMax, SizeMax + 1);
      SizeMax
    else
      SameResidue(x + SizeMax, x - 1, 1, SizeMax + 1);
      SmallResidue(x - 1, SizeMax + 1);
      x - 1
  }

  /** How many samples one record block writes, as written:
      `min(samplecount, minus(record_start, record_head) - 1)`. */
  function RecordCountAsWritten(bs: nat, start: nat, head: nat, n: nat): (r: nat)
    requires 0 < bs <= SizeMax && head <= start + bs && n < UnsignedLimit
    ensures r <= n
    ensures start == head ==> r == n
    ensures start < bs && head < bs && start != head ==> r == Min(n, Minus(bs, start, head) - 1)
  {
    Min(n, SizeDecrement(Minus(bs, start, head)))
  }

  /** The index the source writes input sample `i` to: `record_head + i % bs()`.
      The modulo binds to `i` only. */
  function WriteIndex(bs: nat, head: nat, i: nat): nat
    requires bs > 0
  {
    head + i % bs
  }

  /** Result of the source's write loop and head update. */
  datatype Written = Written(ring: seq<Frame>, head: nat) | OutOfBounds(index: nat)

  /** The write loop `buffer[..][record_head + i % bs()] = in[i]` for
      `i < count`, followed by `record_head += count`. A write at an index
      past the end of the ring is undefined behaviour in C++; the model stops
      there and reports the first such index. */
  function WriteAsWritten(ring: seq<Frame>, head: nat, input: seq<Frame>, count: nat): (r: Written)
    requires 0 < |ring| && count <= |input|
    ensures r.Written? ==> |r.ring| == |ring| && r.head == head + count
    ensures r.Written? <==> forall i :: 0 <= i < count ==> WriteIndex(|ring|, head, i) < |ring|
    ensures r.OutOfBounds? ==>
              |ring| <= r.index &&
              exists i :: 0 <= i < count && r.index == WriteIndex(|ring|, head, i)
    decreases count
  {
    if count == 0 then Written(ring, head)
    else
      match WriteAsWritten(ring, head, input, count - 1)
      case OutOfBounds(index) => OutOfBounds(index)
      case Written(prev, _) =>
        var index := WriteIndex(|ring|, head, count - 1);
        if index < |ring| then Written(prev[index := input[count - 1]], head + count)
        else OutOfBounds(index)
  }

  /** One `ac_record` block exactly as written (reverser.cpp:272-286). It
      relies on the source comment's claim that `record_head <= bs`, which is
      what keeps `minus(record_start, record_head)` from wrapping. */
  function RecordBlockAsWritten(ring: seq<Frame>, start: nat, head: nat, input: seq<Frame>): (r: Written)
    requires 0 < |ring| <= SizeMax && start < |ring| && head <= |ring|
    requires |input| < UnsignedLimit
    ensures var count := RecordCountAsWritten(|ring|, start, head, |input|);
            && (r.Written? <==> forall i :: 0 <= i < count ==> WriteIndex(|ring|, head, i) < |ring|)
            && (r.Written? ==> |r.ring| == |ring| && r.head == head + count)
  {
    WriteAsWritten(ring, head, input, RecordCountAsWritten(|ring|, start, head, |input|))
  }

  /** Free slots ahead of `head` before it would reach `start`. An empty
      recording (`start == head`) leaves room for `bs - 1` frames, so the
      head never returns to `start`. */
  function Room(bs: nat, start: nat, head: nat): (r: nat)
    requires 0 < bs && start < bs && head < bs
    ensures r < bs
  {
    if start == head then bs - 1 else Minus(bs, start, head) - 1
  }

  /** The room is exactly what the head may use: moving it forward by
      `Room` leaves it one slot behind `start` (unless the ring has a single
      slot and the recording is empty, when there is no room at all). */
  lemma RoomEndsBehindStart(bs: nat, start: nat, head: nat)
    requires 0 < bs && start < bs && head < bs
    ensures start != head || bs > 1 ==> Minus(bs, start, Advance(bs, head, Room(bs, start, head))) == 1
    ensures start == head && bs == 1 ==> Room(bs, start, head) == 0
  {
    if start != head {
      MinusAfterAdvance(bs, start, head, Minus(bs, start, head) - 1);
    } else if bs > 1 {
      if head == 0 {
        SmallResidue(bs - 1, bs);
      } else {
        SameResidue(head + bs - 1, head - 1, 1, bs);
        SmallResidue(head - 1, bs);
      }
    }
  }

  /** Moving the head forward by at most `Room` frames keeps it short of
      `start`, and shortens a non-empty gap by exactly that many frames. */
  lemma AdvanceWithinRoom(bs: nat, start: nat, head: nat, count: nat)
    requires 0 < bs && start < bs && head < bs && count <= Room(bs, start, head)
    ensures Minus(bs, Advance(bs, head, count), head) == count
    ensures start != head ==>
              Minus(bs, start, Advance(bs, head, count)) == Minus(bs, start, head) - count
    ensures start == head && count > 0 ==> Minus(bs, start, Advance(bs, head, count)) == bs - count
  {
    var next := Advance(bs, head, count);
    MinusAdvance(bs, head, count);
    if start != head {
      MinusAfterAdvance(bs, start, head, count);
    } else if count > 0 {
      SmallResidue(bs - count, bs);
      if head + count < bs {
        assert next == head + count;
      } else {
        assert next + bs == head + count;
        SameResidue(head + bs - next, bs - count, 1, bs);
      }
    }
  }

  datatype Recorded = Recorded(ring: seq<Frame>, head: nat)

  /** One `ac_record` block with the write index reduced modulo the ring
      (`(record_head + i) % bs`), the head kept inside the ring, and the
      room of an empty recording capped at `bs - 1`. It writes
      `min(samplecount, room)` frames. */
  function RecordBlock(ring: seq<Frame>, start: nat, head: nat, input: seq<Frame>): (r: Recorded)
    requires 0 < |ring| && start < |ring| && head < |ring|
    ensures |r.ring| == |ring| && r.head < |ring|
    ensures Minus(|ring|, r.head, head) == Min(|input|, Room(|ring|, start, head))
    ensures forall p :: 0 <= p < |ring| ==>
              r.ring[p] == (if Minus(|ring|, p, head) < Minus(|ring|, r.head, head)
                            then input[Minus(|ring|, p, head)] else ring[p])
    ensures start != head ==>
              Minus(|ring|, start, r.head) == Minus(|ring|, start, head) - Minus(|ring|, r.head, head)
    ensures start != head || (|input| > 0 && |ring| > 1) ==> Minus(|ring|, start, r.head) >= 1
  {
    var bs := |ring|;
    var count := Min(|input|, Room(bs, start, head));
    var next := Advance(bs, head, count);
    AdvanceWithinRoom(bs, start, head, count);
    Recorded(WriteRing(ring, head, input, count), next)
  }

  /** Where no write wraps, the as-written loop and the corrected one store
      the same frames and leave the head at the same slot. */
  lemma {:induction false} WriteAsWrittenAgrees(ring: seq<Frame>, head: nat, input: seq<Frame>, count: nat)
    requires head < |ring| && count < |ring| && head + count <= |ring| && count <= |input|
    ensures WriteAsWritten(ring, head, input, count) == Written(WriteRing(ring, head, input, count), head + count)
    decreases count
  {
    if count > 0 {
      WriteAsWrittenAgrees(ring, head, input, count - 1);
      SmallResidue(count - 1, |ring|);
      SmallResidue(head + count - 1, |ring|);
    }
  }

  /** The source comment's claim holds while recordings start at slot 0:
      with `record_start == 0`, a head inside the ring and a block shorter
      than the ring, the as-written recorder stays in bounds, keeps the head
      inside the ring and does exactly what `RecordBlock` does. */
  lemma RecordAsWrittenFromStartZero(ring: seq<Frame>, head: nat, input: seq<Frame>)
    requires 0 < |ring| <= SizeMax && head < |ring| && |input| < |ring|
    requires |input| < UnsignedLimit
    ensures RecordBlockAsWritten(ring, 0, head, input) == Written(RecordBlock(ring, 0, head, input).ring, RecordBlock(ring, 0, head, input).head)
    ensures RecordBlock(ring, 0, head, input).head < |ring|
  {
    var bs := |ring|;
    var count := RecordCountAsWritten(bs, 0, head, |input|);
    assert count == Min(|input|, Room(bs, 0, head));
    assert head + count < bs;
    WriteAsWrittenAgrees(ring, head, input, count);
  }

  /** Wherever the as-written recorder stays inside the ring, and a block
      entering an empty recording is shorter than the ring, it stores
      exactly the frames `RecordBlock` stores, and its head reduced modulo
      `bs` is `RecordBlock`'s head. */
  lemma RecordAgreesWhileInBounds(ring: seq<Frame>, start: nat, head: nat, input: seq<Frame>)
    requires 0 < |ring| <= SizeMax && start < |ring| && head < |ring| && |input| < UnsignedLimit
    requires start != head || |input| < |ring|
    requires RecordBlockAsWritten(ring, start, head, input).Written?
    ensures RecordBlockAsWritten(ring, start, head, input).ring == RecordBlock(ring, start, head, input).ring
    ensures RecordBlockAsWritten(ring, start, head, input).head % |ring| == RecordBlock(ring, start, head, input).head
  {
    var bs := |ring|;
    var count := RecordCountAsWritten(bs, start, head, |input|);
    assert count == Min(|input|, Room(bs, start, head));
    if count > 0 {
      assert WriteIndex(bs, head, count - 1) < bs;
      SmallResidue(count - 1, bs);
    }
    WriteAsWrittenAgrees(ring, head, input, count);
  }

  /** The source comment's claim `record_head <= bs` fails even from slot 0
      once a block entering an empty recording is longer than the ring: a
      6-sample block into a 4-slot ring stays in bounds (each index is
      `i % 4`) but leaves the head at 6. */
  lemma LongEntryBlockPassesRingAsWritten()
    ensures RecordCountAsWritten(4, 0, 0, 6) == 6
    ensures RecordBlockAsWritten(Silence(4), 0, 0, Silence(6)).Written?
    ensures RecordBlockAsWritten(Silence(4), 0, 0, Silence(6)).head == 6
  {
    assert forall i :: 0 <= i < 6 ==> WriteIndex(4, 0, i) < 4;
  }

  /** Once a recording starts past slot 0, the as-written recorder writes past
      the end of the ring: re-entering record at slot 2 of a 4-slot ring sets
      `record_start == record_head == 2`, and a 3-sample block then writes
      index `2 + 2 % 4 == 4`. */
  lemma RecordAsWrittenOverruns()
    ensures RecordBlockAsWritten(Silence(4), 2, 2, Silence(3)) == OutOfBounds(4)
  {
  }

  /** On an empty recording the `- 1` wraps, so the whole block is written
      whatever its length: a 4-sample block into a 4-slot ring moves the
      head all the way round, and the recording then reads as empty again
      (distance 0 from head to start). */
  lemma EntryBlockFillsRingAsWritten()
    ensures RecordCountAsWritten(4, 0, 0, 4) == 4
    ensures RecordBlockAsWritten(Silence(4), 0, 0, Silence(4)).Written?
    ensures Minus(4, 0, RecordBlockAsWritten(Silence(4), 0, 0, Silence(4)).head) == 0
  {
    assert WriteIndex(4, 0, 3) == 3;
  }
}
