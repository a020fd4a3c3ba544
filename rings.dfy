/**
  Index arithmetic of the tube lattice.

  The tube has `numrings` rings of `ringsize` beads. Every bead has a 1-based
  serial `n`; the beads of 0-based ring `r` are the serials `r*ringsize + 1`
  through `(r+1)*ringsize`, in order of their 0-based position `q` around the
  ring. The generator's loops count rings either from 0 (atom loops) or from 1
  (topology loops); in this module rings are always 0-based.
*/
module Rings {

  /** The 0-based ring of the bead with serial `n`. */
  function RingOf(rs: nat, n: nat): nat
    requires rs > 0 && n >= 1
  {
    (n - 1) / rs
  }

  /** The 0-based position around its ring of the bead with serial `n`. */
  function PosOf(rs: nat, n: nat): (q: nat)
    requires rs > 0 && n >= 1
    ensures q < rs
  {
    (n - 1) % rs
  }

  /** The serial of the bead at position `q` of ring `r`. */
  function Serial(rs: nat, r: nat, q: nat): nat
  {
    r * rs + q + 1
  }

  /** Euclidean division is unique: the only quotient/remainder pair of `x` by `d`. */
  lemma {:induction false} DivModUnique(x: int, d: nat, quot: int, rem: int)
    requires d > 0 && x == quot * d + rem && 0 <= rem < d
    ensures x / d == quot && x % d == rem
  {
    var q', r' := x / d, x % d;
    assert q' * d + r' == x;
    assert (q' - quot) * d == rem - r';
    if q' > quot {
      MulAtLeastFactor(q' - quot, d);
    } else if q' < quot {
      MulAtLeastFactor(quot - q', d);
    }
  }

  lemma MulAtLeastFactor(a: int, d: nat)
    requires a >= 1
    ensures a * d >= d
  {
    assert a * d == (a - 1) * d + d;
  }

  /** One more ring of `b` beads: `(a+1)*b == a*b + b`. */
  lemma MulSucc(a: int, b: int)
    ensures (a + 1) * b == a * b + b
  {
  }

  /** A serial built from a ring and an in-range position decomposes back into them. */
  lemma SerialParts(rs: nat, r: nat, q: nat)
    requires q < rs
    ensures RingOf(rs, Serial(rs, r, q)) == r
    ensures PosOf(rs, Serial(rs, r, q)) == q
  {
    DivModUnique(r * rs + q, rs, r, q);
  }

  /** Every serial is rebuilt from its ring and position. */
  lemma SerialOfParts(rs: nat, n: nat)
    requires rs > 0 && n >= 1
    ensures Serial(rs, RingOf(rs, n), PosOf(rs, n)) == n
  {
  }

  /** The serials of `numrings` rings are exactly 1..numrings*rs, ring by ring. */
  lemma {:induction false} SerialRange(rs: nat, numrings: nat, n: nat)
    requires rs > 0 && n >= 1
    ensures n <= numrings * rs <==> RingOf(rs, n) < numrings
  {
    var r, q := RingOf(rs, n), PosOf(rs, n);
    SerialOfParts(rs, n);
    if r < numrings {
      MulAtLeastFactor(numrings - r, rs);
      assert numrings * rs == (numrings - r) * rs + r * rs;
    } else {
      assert r * rs == (r - numrings) * rs + numrings * rs;
      assert (r - numrings) * rs >= 0;
    }
  }

  /** The bead after `n` around its ring; the last position wraps to the first. */
  function NextInRing(rs: nat, n: nat): nat
    requires rs > 0 && n >= 1
  {
    Serial(rs, RingOf(rs, n), (PosOf(rs, n) + 1) % rs)
  }

  /** The bead before `n` around its ring; the first position wraps to the last. */
  function PrevInRing(rs: nat, n: nat): nat
    requires rs > 0 && n >= 1
  {
    Serial(rs, RingOf(rs, n), (PosOf(rs, n) + rs - 1) % rs)
  }

  /** `n + rs` is the bead at the same position of the next ring. */
  lemma StraightAcross(rs: nat, n: nat)
    requires rs > 0 && n >= 1
    ensures RingOf(rs, n + rs) == RingOf(rs, n) + 1
    ensures PosOf(rs, n + rs) == PosOf(rs, n)
  {
    SerialOfParts(rs, n);
    assert n + rs == Serial(rs, RingOf(rs, n) + 1, PosOf(rs, n));
    SerialParts(rs, RingOf(rs, n) + 1, PosOf(rs, n));
  }

  /**
    The diagonal partner of bead `n` in the next ring: the ring neighbour of
    its straight partner `n + rs`, one step back when `n`'s 0-based ring is
    even and one step forward when it is odd.
  */
  function DiagonalPartner(rs: nat, n: nat): nat
    requires rs > 0 && n >= 1
  {
    if RingOf(rs, n) % 2 == 0 then PrevInRing(rs, n + rs) else NextInRing(rs, n + rs)
  }

  /** The ring successor stays in the same ring and advances the position by one, wrapping. */
  lemma NextInRingStep(rs: nat, n: nat)
    requires rs > 0 && n >= 1
    ensures NextInRing(rs, n) >= 1
    ensures RingOf(rs, NextInRing(rs, n)) == RingOf(rs, n)
    ensures PosOf(rs, NextInRing(rs, n)) == (PosOf(rs, n) + 1) % rs
  {
    SerialParts(rs, RingOf(rs, n), (PosOf(rs, n) + 1) % rs);
  }

  /** The ring predecessor stays in the same ring and moves the position back by one, wrapping. */
  lemma PrevInRingStep(rs: nat, n: nat)
    requires rs > 0 && n >= 1
    ensures PrevInRing(rs, n) >= 1
    ensures RingOf(rs, PrevInRing(rs, n)) == RingOf(rs, n)
    ensures PosOf(rs, PrevInRing(rs, n)) == (PosOf(rs, n) + rs - 1) % rs
  {
    SerialParts(rs, RingOf(rs, n), (PosOf(rs, n) + rs - 1) % rs);
  }

  /** Stepping forward and back around a ring are inverse to each other. */
  lemma NextPrevInverse(rs: nat, n: nat)
    requires rs > 0 && n >= 1
    ensures NextInRing(rs, PrevInRing(rs, n)) == n
    ensures PrevInRing(rs, NextInRing(rs, n)) == n
  {
    var r, q := RingOf(rs, n), PosOf(rs, n);
    SerialOfParts(rs, n);
    PrevInRingStep(rs, n);
    NextInRingStep(rs, n);
    if q == 0 {
      DivModUnique(rs - 1, rs, 0, rs - 1);
      DivModUnique(rs, rs, 1, 0);
    } else {
      DivModUnique(q + rs - 1, rs, 1, q - 1);
      DivModUnique(q, rs, 0, q);
    }
    if q + 1 < rs {
      DivModUnique(q + 1, rs, 0, q + 1);
      DivModUnique(q + 1 + rs - 1, rs, 1, q);
    } else {
      DivModUnique(q + 1, rs, 1, 0);
      DivModUnique(rs - 1, rs, 0, q);
    }
  }

  /**
    The diagonal partner lies in the next ring, one position behind (even
    0-based ring) or ahead (odd 0-based ring) of the bead, and is a ring
    neighbour of the straight partner `n + rs`.
  */
  lemma DiagonalInNextRing(rs: nat, n: nat)
    requires rs > 0 && n >= 1
    ensures RingOf(rs, DiagonalPartner(rs, n)) == RingOf(rs, n) + 1
    ensures PosOf(rs, DiagonalPartner(rs, n)) ==
      if RingOf(rs, n) % 2 == 0 then (PosOf(rs, n) + rs - 1) % rs else (PosOf(rs, n) + 1) % rs
    ensures RingOf(rs, n) % 2 == 0 ==> NextInRing(rs, DiagonalPartner(rs, n)) == n + rs
    ensures RingOf(rs, n) % 2 == 1 ==> PrevInRing(rs, DiagonalPartner(rs, n)) == n + rs
  {
    StraightAcross(rs, n);
    NextInRingStep(rs, n + rs);
    PrevInRingStep(rs, n + rs);
    NextPrevInverse(rs, n + rs);
  }
}
