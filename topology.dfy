/**
  The bonded topology of the tube and its position restraints: the loops
  that list ring bonds, bonds between consecutive rings, in-ring angles,
  improper dihedrals and restraint entries. The loops count rings from 1
  (`m`) and positions from 1 (`n`); the atom `i = (m-1)*ringsize + n` is at
  0-based ring `m-1` and 0-based position `n-1`.
*/
module Topology {
  import opened Rings

  /** A bond line: the two atom serials and the function type (1). */
  datatype Bond = Bond(ai: nat, aj: nat, funct: nat)

  /** An angle line: three atom serials and the function type (2). */
  datatype Angle = Angle(ai: nat, aj: nat, ak: nat, funct: nat)

  /** An improper dihedral line: four atom serials in the order written and the function type (2). */
  datatype Dihedral = Dihedral(ai: nat, aj: nat, ak: nat, al: nat, funct: nat)

  /** A position restraint line: the atom, the function type (1) and three force constants (1000). */
  datatype Restraint = Restraint(ai: nat, funct: nat, fcx: nat, fcy: nat, fcz: nat)

  // ---------------------------------------------------------------------------
  // What line k of each section holds
  // ---------------------------------------------------------------------------

  /** Ring bond k: from serial k+1 to its successor around the ring. */
  function RingBondAt(rs: nat, k: nat): Bond
    requires rs > 0
  {
    Bond(k + 1, NextInRing(rs, k + 1), 1)
  }

  /**
    Inter-ring bonds come in pairs per atom of every ring but the last: line
    2*(a-1) joins serial `a` to the same position of the next ring, line
    2*(a-1)+1 joins it to its diagonal partner.
  */
  function InterRingBondAt(rs: nat, k: nat): Bond
    requires rs > 0
  {
    var a := k / 2 + 1;
    if k % 2 == 0 then Bond(a, a + rs, 1) else Bond(a, DiagonalPartner(rs, a), 1)
  }

  /** Angle k: serial k+1 and the next two beads around its ring. */
  function AngleAt(rs: nat, k: nat): Angle
    requires rs > 0
  {
    var a := k + 1;
    Angle(a, NextInRing(rs, a), NextInRing(rs, NextInRing(rs, a)), 2)
  }

  /**
    Dihedral k: serial a = k+1, its straight partners one and two rings on,
    and its diagonal partner; the diagonal partner is written second for an
    even 0-based ring and third for an odd one.
  */
  function DihedralAt(rs: nat, k: nat): Dihedral
    requires rs > 0
  {
    var a := k + 1;
    var d := DiagonalPartner(rs, a);
    if RingOf(rs, a) % 2 == 0 then Dihedral(a, d, a + rs, a + 2 * rs, 2)
    else Dihedral(a, a + rs, d, a + 2 * rs, 2)
  }

  // ---------------------------------------------------------------------------
  // The source's index formulas agree with the ring arithmetic
  // ---------------------------------------------------------------------------

  /** `(m-1)*ringsize + n%ringsize + 1` is the ring successor of atom `i`. */
  lemma SourceNext(rs: nat, r: nat, n: nat)
    requires 1 <= n <= rs
    ensures NextInRing(rs, r * rs + n) == r * rs + n % rs + 1
  {
    SerialParts(rs, r, n - 1);
  }

  /** `(m-1)*ringsize + (n+1)%ringsize + 1` is the successor of the successor of atom `i`. */
  lemma SourceNextNext(rs: nat, r: nat, n: nat)
    requires 1 <= n <= rs
    ensures NextInRing(rs, NextInRing(rs, r * rs + n)) == r * rs + (n + 1) % rs + 1
  {
    SourceNext(rs, r, n);
    var x := n % rs;
    assert NextInRing(rs, r * rs + n) == Serial(rs, r, x);
    SerialParts(rs, r, x);
    assert NextInRing(rs, Serial(rs, r, x)) == r * rs + (x + 1) % rs + 1;
    if n < rs {
      DivModUnique(n, rs, 0, n);
    } else if rs == 1 {
      DivModUnique(n, rs, 1, 0);
      DivModUnique(1, rs, 1, 0);
      DivModUnique(n + 1, rs, 2, 0);
    } else {
      DivModUnique(n, rs, 1, 0);
      DivModUnique(1, rs, 0, 1);
      DivModUnique(n + 1, rs, 1, 1);
    }
  }

  /**
    The diagonal rule of the source, for 1-based ring `m` and position `n`:
    in an odd ring the partner is `(m+1)*ringsize` when `i mod ringsize` is 1
    and `m*ringsize + n - 1` otherwise; in an even ring it is `i + 1` when
    `i mod ringsize` is 0 and `j + 1 = m*ringsize + n + 1` otherwise. With at
    least two beads per ring this is exactly the diagonal partner of `i`.
  */
  lemma SourceDiagonal(rs: nat, m: nat, n: nat)
    requires rs >= 2 && m >= 1 && 1 <= n <= rs
    ensures var i := (m - 1) * rs + n;
      && (m % 2 == 1 && i % rs == 1 ==> DiagonalPartner(rs, i) == (m + 1) * rs)
      && (m % 2 == 1 && i % rs != 1 ==> DiagonalPartner(rs, i) == m * rs + n - 1)
      && (m % 2 != 1 && i % rs == 0 ==> DiagonalPartner(rs, i) == i + 1)
      && (m % 2 != 1 && i % rs != 0 ==> DiagonalPartner(rs, i) == m * rs + n + 1)
  {
    var i := (m - 1) * rs + n;
    SerialParts(rs, m - 1, n - 1);
    assert i + rs == Serial(rs, m, n - 1);
    SerialParts(rs, m, n - 1);
    if n < rs {
      DivModUnique(i, rs, m - 1, n);
      DivModUnique(n, rs, 0, n);
    } else {
      DivModUnique(i, rs, m, 0);
      DivModUnique(n, rs, 1, 0);
    }
    if n == 1 {
      DivModUnique(rs - 1, rs, 0, rs - 1);
    } else {
      DivModUnique(n - 2 + rs, rs, 1, n - 2);
    }
  }

  /** Line k of `bonds` is inter-ring bond line k, for every line. */
  predicate InterRingLines(rs: nat, bonds: seq<Bond>)
    requires rs > 0
  {
    forall k :: 0 <= k < |bonds| ==> bonds[k] == InterRingBondAt(rs, k)
  }

  /** Appending the two inter-ring bond lines of atom `i`, to `i + rs` and to its diagonal partner. */
  lemma InterRingPair(rs: nat, bonds: seq<Bond>, s: seq<Bond>, i: nat, j: nat, k: nat)
    requires rs > 0 && i >= 1 && InterRingLines(rs, bonds)
    requires |bonds| == 2 * (i - 1) && j == i + rs && k == DiagonalPartner(rs, i)
    requires s == bonds + [Bond(i, j, 1)] + [Bond(i, k, 1)]
    ensures InterRingLines(rs, s)
  {
    var L := |bonds|;
    DivModUnique(L, 2, i - 1, 0);
    DivModUnique(L + 1, 2, i - 1, 1);
    forall t | 0 <= t < |s|
      ensures s[t] == InterRingBondAt(rs, t)
    {
      if t < L {
        assert s[t] == bonds[t];
      }
    }
  }

  /** The dihedral line of atom `i = (m-1)*rs + n`, in the source's two orders. */
  lemma DihedralLine(rs: nat, m: nat, n: nat)
    requires rs > 0 && m >= 1 && 1 <= n <= rs
    ensures var i := (m - 1) * rs + n;
      var d := DiagonalPartner(rs, i);
      DihedralAt(rs, i - 1) ==
        if m % 2 == 1 then Dihedral(i, d, m * rs + n, (m + 1) * rs + n, 2)
        else Dihedral(i, m * rs + n, d, (m + 1) * rs + n, 2)
  {
    SerialParts(rs, m - 1, n - 1);
    assert m * rs == (m - 1) * rs + rs;
    assert (m + 1) * rs == (m - 1) * rs + 2 * rs;
  }

  // ---------------------------------------------------------------------------
  // The enumeration loops
  // ---------------------------------------------------------------------------

  /** The ring bonds: every atom bonded to the next one around its ring. */
  method RingBonds(numrings: nat, ringsize: nat) returns (bonds: seq<Bond>)
    requires ringsize > 0
    ensures |bonds| == numrings * ringsize
    ensures forall k :: 0 <= k < |bonds| ==> bonds[k] == RingBondAt(ringsize, k)
  {
    bonds := [];
    var m := 1;
    while m <= numrings
      invariant 1 <= m <= numrings + 1
      invariant |bonds| == (m - 1) * ringsize
      invariant forall k :: 0 <= k < |bonds| ==> bonds[k] == RingBondAt(ringsize, k)
    {
      var n := 1;
      while n <= ringsize
        invariant 1 <= n <= ringsize + 1
        invariant |bonds| == (m - 1) * ringsize + n - 1
        invariant forall k :: 0 <= k < |bonds| ==> bonds[k] == RingBondAt(ringsize, k)
      {
        var i := (m - 1) * ringsize + n;
        var j := (m - 1) * ringsize + n % ringsize + 1;
        SourceNext(ringsize, m - 1, n);
        bonds := bonds + [Bond(i, j, 1)];
        n := n + 1;
      }
      assert |bonds| == m * ringsize;
      m := m + 1;
    }
  }

  /** The bonds between rings: two per atom of every ring but the last. */
  method InterRingBonds(numrings: nat, ringsize: nat) returns (bonds: seq<Bond>)
    requires ringsize >= 2
    ensures |bonds| == if numrings == 0 then 0 else 2 * (numrings - 1) * ringsize
    ensures InterRingLines(ringsize, bonds)
  {
    bonds := [];
    var m := 1;
    while m < numrings
      invariant 1 <= m && (numrings >= 1 ==> m <= numrings) && (numrings == 0 ==> m == 1)
      invariant |bonds| == 2 * ((m - 1) * ringsize)
      invariant InterRingLines(ringsize, bonds)
    {
      var n := 1;
      while n <= ringsize
        invariant 1 <= n <= ringsize + 1
        invariant |bonds| == 2 * ((m - 1) * ringsize + n - 1)
        invariant InterRingLines(ringsize, bonds)
      {
        var i, j, k;
        ghost var before := bonds;
        SourceDiagonal(ringsize, m, n);
        MulSucc(m - 1, ringsize);
        if m % 2 == 1 {
          i := (m - 1) * ringsize + n;
          j := m * ringsize + n;
          bonds := bonds + [Bond(i, j, 1)];
          if i % ringsize == 1 {
            k := (m + 1) * ringsize;
          } else {
            k := m * ringsize + n - 1;
          }
          bonds := bonds + [Bond(i, k, 1)];
        } else {
          i := (m - 1) * ringsize + n;
          j := m * ringsize + n;
          bonds := bonds + [Bond(i, j, 1)];
          if i % ringsize == 0 {
            k := i + 1;
          } else {
            k := j + 1;
          }
          bonds := bonds + [Bond(i, k, 1)];
        }
        InterRingPair(ringsize, before, bonds, i, j, k);
        n := n + 1;
      }
      MulSucc(m - 1, ringsize);
      m := m + 1;
    }
  }

  /** The in-ring angles: every atom with the next two beads around its ring. */
  method Angles(numrings: nat, ringsize: nat) returns (angles: seq<Angle>)
    requires ringsize > 0
    ensures |angles| == numrings * ringsize
    ensures forall k :: 0 <= k < |angles| ==> angles[k] == AngleAt(ringsize, k)
  {
    angles := [];
    var m := 1;
    while m <= numrings
      invariant 1 <= m <= numrings + 1
      invariant |angles| == (m - 1) * ringsize
      invariant forall k :: 0 <= k < |angles| ==> angles[k] == AngleAt(ringsize, k)
    {
      var n := 1;
      while n <= ringsize
        invariant 1 <= n <= ringsize + 1
        invariant |angles| == (m - 1) * ringsize + n - 1
        invariant forall k :: 0 <= k < |angles| ==> angles[k] == AngleAt(ringsize, k)
      {
        var i := (m - 1) * ringsize + n;
        var j := (m - 1) * ringsize + n % ringsize + 1;
        var k := (m - 1) * ringsize + (n + 1) % ringsize + 1;
        SourceNext(ringsize, m - 1, n);
        SourceNextNext(ringsize, m - 1, n);
        angles := angles + [Angle(i, j, k, 2)];
        n := n + 1;
      }
      assert |angles| == m * ringsize;
      m := m + 1;
    }
  }

  /** The improper dihedrals: one per atom of every ring but the last two. */
  method Dihedrals(numrings: nat, ringsize: nat) returns (dihedrals: seq<Dihedral>)
    requires ringsize >= 2
    ensures |dihedrals| == if numrings < 2 then 0 else (numrings - 2) * ringsize
    ensures forall k :: 0 <= k < |dihedrals| ==> dihedrals[k] == DihedralAt(ringsize, k)
  {
    dihedrals := [];
    var m := 1;
    while m < numrings - 1
      invariant 1 <= m && (numrings >= 2 ==> m <= numrings - 1) && (numrings < 2 ==> m == 1)
      invariant |dihedrals| == (m - 1) * ringsize
      invariant forall k :: 0 <= k < |dihedrals| ==> dihedrals[k] == DihedralAt(ringsize, k)
    {
      var n := 1;
      while n <= ringsize
        invariant 1 <= n <= ringsize + 1
        invariant |dihedrals| == (m - 1) * ringsize + n - 1
        invariant forall k :: 0 <= k < |dihedrals| ==> dihedrals[k] == DihedralAt(ringsize, k)
      {
        var i := (m - 1) * ringsize + n;
        var j := m * ringsize + n;
        var l := (m + 1) * ringsize + n;
        var k;
        SourceDiagonal(ringsize, m, n);
        DihedralLine(ringsize, m, n);
        if m % 2 == 1 {
          if i % ringsize == 1 {
            k := (m + 1) * ringsize;
          } else {
            k := m * ringsize + (n - 1);
          }
          dihedrals := dihedrals + [Dihedral(i, k, j, l, 2)];
        } else {
          if i % ringsize == 0 {
            k := i + 1;
          } else {
            k := j + 1;
          }
          dihedrals := dihedrals + [Dihedral(i, j, k, l, 2)];
        }
        assert dihedrals[|dihedrals| - 1] == DihedralAt(ringsize, i - 1);
        n := n + 1;
      }
      assert |dihedrals| == m * ringsize;
      m := m + 1;
    }
  }

  /** The position restraints: one entry per atom serial 1..numatoms, in order. */
  method PositionRestraints(numatoms: nat) returns (entries: seq<Restraint>)
    ensures |entries| == numatoms
    ensures forall k :: 0 <= k < |entries| ==> entries[k] == Restraint(k + 1, 1, 1000, 1000, 1000)
  {
    entries := [];
    var i := 1;
    while i <= numatoms
      invariant 1 <= i <= numatoms + 1
      invariant |entries| == i - 1
      invariant forall k :: 0 <= k < |entries| ==> entries[k] == Restraint(k + 1, 1, 1000, 1000, 1000)
    {
      entries := entries + [Restraint(i, 1, 1000, 1000, 1000)];
      i := i + 1;
    }
  }

  // ---------------------------------------------------------------------------
  // What every line of each section connects
  // ---------------------------------------------------------------------------

  /** Whether `n` is the serial of one of the `numrings*rs` atoms. */
  predicate IsAtom(numrings: nat, rs: nat, n: nat)
  {
    1 <= n <= numrings * rs
  }

  /**
    Every ring bond joins two atoms of the same ring, the second at the next
    position around the ring (the last position wrapping to the first).
  */
  lemma RingBondInRing(numrings: nat, rs: nat, k: nat)
    requires rs > 0 && k < numrings * rs
    ensures var b := RingBondAt(rs, k);
      && IsAtom(numrings, rs, b.ai) && IsAtom(numrings, rs, b.aj)
      && RingOf(rs, b.aj) == RingOf(rs, b.ai)
      && PosOf(rs, b.aj) == (PosOf(rs, b.ai) + 1) % rs
  {
    NextInRingStep(rs, k + 1);
    SerialRange(rs, numrings, k + 1);
    SerialRange(rs, numrings, NextInRing(rs, k + 1));
  }

  /**
    Every inter-ring bond starts at an atom of a ring other than the last and
    ends in the next ring: at the same position (even lines) or at the
    position before (even 0-based ring) or after (odd 0-based ring) it.
  */
  lemma InterRingBondSpan(numrings: nat, rs: nat, k: nat)
    requires rs > 0 && numrings >= 1 && k < 2 * (numrings - 1) * rs
    ensures var b := InterRingBondAt(rs, k);
      && IsAtom(numrings - 1, rs, b.ai) && IsAtom(numrings, rs, b.aj)
      && RingOf(rs, b.aj) == RingOf(rs, b.ai) + 1
      && PosOf(rs, b.aj) ==
        if k % 2 == 0 then PosOf(rs, b.ai)
        else if RingOf(rs, b.ai) % 2 == 0 then (PosOf(rs, b.ai) + rs - 1) % rs
        else (PosOf(rs, b.ai) + 1) % rs
  {
    var a := k / 2 + 1;
    var c := (numrings - 1) * rs;
    assert 2 * (numrings - 1) * rs == 2 * c;
    assert a <= c;
    SerialRange(rs, numrings - 1, a);
    if k % 2 == 0 {
      StraightAcross(rs, a);
      SerialRange(rs, numrings, a + rs);
    } else {
      DiagonalInNextRing(rs, a);
      SerialRange(rs, numrings, DiagonalPartner(rs, a));
    }
  }

  /** Every angle is three consecutive atoms of one ring, wrapping around it. */
  lemma AngleInRing(numrings: nat, rs: nat, k: nat)
    requires rs > 0 && k < numrings * rs
    ensures var t := AngleAt(rs, k);
      && IsAtom(numrings, rs, t.ai) && IsAtom(numrings, rs, t.aj) && IsAtom(numrings, rs, t.ak)
      && RingOf(rs, t.aj) == RingOf(rs, t.ai) && RingOf(rs, t.ak) == RingOf(rs, t.ai)
      && PosOf(rs, t.aj) == (PosOf(rs, t.ai) + 1) % rs
      && PosOf(rs, t.ak) == (PosOf(rs, t.aj) + 1) % rs
  {
    var a := k + 1;
    NextInRingStep(rs, a);
    NextInRingStep(rs, NextInRing(rs, a));
    SerialRange(rs, numrings, a);
    SerialRange(rs, numrings, NextInRing(rs, a));
    SerialRange(rs, numrings, NextInRing(rs, NextInRing(rs, a)));
  }

  /**
    Every dihedral is built from an atom of ring r (0-based), the atoms at
    the same position of rings r+1 and r+2, and the diagonal partner in ring
    r+1, which is the same atom the inter-ring bond rule joins it to.
  */
  lemma DihedralSpan(numrings: nat, rs: nat, k: nat)
    requires rs > 0 && numrings >= 2 && k < (numrings - 2) * rs
    ensures var a := k + 1;
      var d := DihedralAt(rs, k);
      var diag := InterRingBondAt(rs, 2 * k + 1).aj;
      && IsAtom(numrings - 2, rs, a)
      && (if RingOf(rs, a) % 2 == 0 then d == Dihedral(a, diag, a + rs, a + 2 * rs, 2)
          else d == Dihedral(a, a + rs, diag, a + 2 * rs, 2))
      && RingOf(rs, a + rs) == RingOf(rs, a) + 1 && PosOf(rs, a + rs) == PosOf(rs, a)
      && RingOf(rs, a + 2 * rs) == RingOf(rs, a) + 2 && PosOf(rs, a + 2 * rs) == PosOf(rs, a)
      && RingOf(rs, diag) == RingOf(rs, a) + 1
      && IsAtom(numrings, rs, a + 2 * rs) && IsAtom(numrings, rs, diag)
  {
    var a := k + 1;
    SerialRange(rs, numrings - 2, a);
    StraightAcross(rs, a);
    StraightAcross(rs, a + rs);
    DiagonalInNextRing(rs, a);
    SerialRange(rs, numrings, a + 2 * rs);
    SerialRange(rs, numrings, DiagonalPartner(rs, a));
  }
}
