/** The ring store: two parallel channels of `bs` samples each, held here as
    one sequence of stereo frames. Floating-point samples are modelled as
    `real`, so gains multiply exactly. */
module Store {
  import opened Ring

  /** One stereo sample: `buffer[0][p]` and `buffer[1][p]` in the source. */
  datatype Frame = Frame(left: real, right: real)

  const Zero: Frame := Frame(0.0, 0.0)

  /** The frame `f` multiplied by the gain `g` on both channels. */
  function Scale(g: real, f: Frame): Frame
  {
    Frame(g * f.left, g * f.right)
  }

  /** Channel-wise sum, as in `out.left[i] += ...; out.right[i] += ...`. */
  function Add(a: Frame, b: Frame): Frame
  {
    Frame(a.left + b.left, a.right + b.right)
  }

  /** Unit gain leaves a frame as it is, and adding it to silence gives the
      frame itself. */
  lemma UnitGain()
    ensures forall f :: Scale(1.0, f) == f
    ensures forall f :: Add(Zero, f) == f
  {
  }

  /** A block of `n` silent frames. */
  function Silence(n: nat): (r: seq<Frame>)
    ensures |r| == n
    ensures forall i :: 0 <= i < n ==> r[i] == Zero
  {
    seq(n, i => Zero)
  }

  /** The ring after writing `input[0..count)` to consecutive slots starting
      at `head` and wrapping at the end of the ring. Slot `p` receives the
      input frame whose index is the forward distance from `head` to `p`;
      every slot further away than `count` keeps its old frame. */
  function WriteRing(ring: seq<Frame>, head: nat, input: seq<Frame>, count: nat): (r: seq<Frame>)
    requires 0 < |ring| && head < |ring|
    requires count < |ring| && count <= |input|
    ensures |r| == |ring|
    ensures forall p :: 0 <= p < |ring| ==>
              r[p] == (if Minus(|ring|, p, head) < count then input[Minus(|ring|, p, head)] else ring[p])
    decreases count
  {
    if count == 0 then ring
    else
      var prev := WriteRing(ring, head, input, count - 1);
      AdvanceHits(|ring|, head, count - 1);
      prev[Advance(|ring|, head, count - 1) := input[count - 1]]
  }
}
