/** Position arithmetic over the reverser's ring of `bs` slots.

    Cursors are plain natural numbers, as the C++ `std::size_t` fields are;
    they are reduced modulo `bs` only where the source writes `% bs()`.
 */
module Ring {

  /** `minus(higher, lower)`: the forward distance from `lower` to `higher`.
      The C++ computes `(higher + bs - lower) % bs` on unsigned integers, so
      it relies on `lower <= higher + bs` (otherwise the subtraction wraps). */
  function Minus(bs: nat, higher: nat, lower: nat): (r: nat)
    requires bs > 0
    requires lower <= higher + bs
    ensures r < bs
    ensures higher < bs && lower < bs ==> (r == 0 <==> higher == lower)
    ensures higher < bs && lower <= higher ==> r == higher - lower
    ensures lower < bs && higher < lower ==> r == higher + bs - lower
  {
    MinusCases(bs, higher, lower);
    (higher + bs - lower) % bs
  }

  lemma MinusCases(bs: nat, higher: nat, lower: nat)
    requires bs > 0 && lower <= higher + bs
    ensures higher < bs && lower <= higher ==> (higher + bs - lower) % bs == higher - lower
    ensures lower < bs && higher < lower ==> (higher + bs - lower) % bs == higher + bs - lower
  {
    if higher < bs && lower <= higher {
      SameResidue(higher + bs - lower, higher - lower, 1, bs);
      SmallResidue(higher - lower, bs);
    } else if lower < bs && higher < lower {
      SmallResidue(higher + bs - lower, bs);
    }
  }

  /** The smaller of two counts, as `std::min`. */
  function Min(a: nat, b: nat): (r: nat)
    ensures r <= a && r <= b && (r == a || r == b)
  {
    if a <= b then a else b
  }

  /** The slot `k` places forward of `p`. */
  function Advance(bs: nat, p: nat, k: nat): (r: nat)
    requires bs > 0
    ensures r < bs
    ensures p + k < bs ==> r == p + k
  {
    (p + k) % bs
  }

  /** Two integers that differ by a multiple of `bs` leave the same remainder. */
  lemma SameResidue(x: int, y: int, k: int, bs: int)
    requires bs > 0
    requires x == y + k * bs
    ensures x % bs == y % bs
  {
    var qx, rx := x / bs, x % bs;
    var qy, ry := y / bs, y % bs;
    var e := qx - qy - k;
    assert e * bs == qx * bs - qy * bs - k * bs;
    assert e * bs == ry - rx;
    if e > 0 {
      PositiveMultiple(e, bs);
    } else if e < 0 {
      PositiveMultiple(-e, bs);
    }
  }

  lemma PositiveMultiple(e: int, bs: int)
    requires e > 0 && bs > 0
    ensures e * bs >= bs
  {
    assert e * bs == (e - 1) * bs + bs;
  }

  /** A value already in `[0, bs)` is its own remainder. */
  lemma SmallResidue(x: int, bs: int)
    requires 0 <= x < bs
    ensures x % bs == x
  {
  }

  /** Walking `k < bs` slots forward from `p` puts the walker at distance `k`. */
  lemma MinusAdvance(bs: nat, p: nat, k: nat)
    requires 0 < bs && p < bs && k < bs
    ensures Minus(bs, Advance(bs, p, k), p) == k
  {
    var a := Advance(bs, p, k);
    var q := (p + k) / bs;
    assert p + k == q * bs + a;
    SameResidue(a + bs - p, k, 1 - q, bs);
    SmallResidue(k, bs);
  }

  /** Walking the distance from `p` to `t` forward from `p` arrives at `t`. */
  lemma AdvanceMinus(bs: nat, p: nat, t: nat)
    requires 0 < bs && p <= t + bs && t < bs
    ensures Advance(bs, p, Minus(bs, t, p)) == t
  {
    var d := Minus(bs, t, p);
    var m := (t + bs - p) / bs;
    assert t + bs - p == m * bs + d;
    SameResidue(p + d, t, 1 - m, bs);
    SmallResidue(t, bs);
  }

  /** Distance to `a` from a cursor moved `i` slots forward, where `i` does
      not overshoot `a`: it shrinks by exactly `i`. The cursor `b` need not
      be reduced modulo `bs`. */
  lemma MinusAfterAdvance(bs: nat, a: nat, b: nat, i: nat)
    requires 0 < bs && b <= a + bs && i <= Minus(bs, a, b)
    ensures Advance(bs, b, i) <= a + bs
    ensures Minus(bs, a, Advance(bs, b, i)) == Minus(bs, a, b) - i
  {
    var d := Minus(bs, a, b);
    var m := (a + bs - b) / bs;
    assert a + bs - b == m * bs + d;
    var t := Advance(bs, b, i);
    var q := (b + i) / bs;
    assert b + i == q * bs + t;
    SameResidue(a + bs - t, d - i, m + q, bs);
    SmallResidue(d - i, bs);
  }

  /** Distance from `c` to a cursor moved `i` slots backward (the C++ reads
      `(b + bs - i) % bs`), where `i` does not overshoot `c`: it shrinks by
      exactly `i`. */
  lemma MinusAfterRetreat(bs: nat, b: nat, c: nat, i: nat)
    requires 0 < bs && c < bs && c <= b + bs && i <= Minus(bs, b, c) && i <= b + bs
    ensures c <= (b + bs - i) % bs + bs
    ensures Minus(bs, (b + bs - i) % bs, c) == Minus(bs, b, c) - i
  {
    var d := Minus(bs, b, c);
    var m := (b + bs - c) / bs;
    assert b + bs - c == m * bs + d;
    var t := (b + bs - i) % bs;
    var q := (b + bs - i) / bs;
    assert b + bs - i == q * bs + t;
    SameResidue(t + bs - c, d - i, m + 1 - q, bs);
    SmallResidue(d - i, bs);
  }

  /** Slot `p` is the `k`-th slot forward of `head` exactly when the
      distance from `head` to `p` is `k`. */
  lemma AdvanceHits(bs: nat, head: nat, k: nat)
    requires 0 < bs && head < bs && k < bs
    ensures forall p :: 0 <= p < bs ==> (p == Advance(bs, head, k) <==> Minus(bs, p, head) == k)
  {
    forall p | 0 <= p < bs
      ensures p == Advance(bs, head, k) <==> Minus(bs, p, head) == k
    {
      MinusAdvance(bs, head, k);
      if Minus(bs, p, head) == k {
        AdvanceMinus(bs, head, p);
      }
    }
  }
}
