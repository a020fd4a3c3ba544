/**
  The generator run as a whole: from one parameter set, the atom lines of
  the .gro file, the [ atoms ], [ bonds ], [ angles ] and [ dihedrals ]
  sections of the .itp file and the entries of the position-restraint file,
  in the order the script writes them.
*/
module Generator {
  import opened Rings
  import opened Atoms
  import opened Topology

  /** The integer records of the three output files. */
  datatype Output = Output(
    structure: seq<GroAtom>,
    atoms: seq<ItpAtom>,
    bonds: seq<Bond>,
    angles: seq<Angle>,
    dihedrals: seq<Dihedral>,
    restraints: seq<Restraint>)

  /** Number of atoms, `numrings*ringsize`. */
  function NumAtoms(p: Params): nat
  {
    p.numrings * p.ringsize
  }

  /**
    Runs the loops in the script's order. The ring bonds are written before
    the inter-ring bonds in the one [ bonds ] section.
  */
  method Generate(p: Params) returns (out: Output)
    requires p.ringsize >= 2
    ensures |out.structure| == NumAtoms(p) && |out.atoms| == NumAtoms(p) && |out.restraints| == NumAtoms(p)
    ensures forall k :: 0 <= k < |out.atoms| ==>
      && out.atoms[k].nr == k + 1
      && out.restraints[k].ai == k + 1
      && out.structure[k].atomname == out.atoms[k].atomname
      && |out.atoms[k].atomname| == 4
      && out.atoms[k].beadtype == (if out.atoms[k].atomname[0] == 'F' then p.functype else p.beadtype)
    ensures |out.bonds| == NumAtoms(p) + (if p.numrings == 0 then 0 else 2 * (p.numrings - 1) * p.ringsize)
    ensures |out.angles| == NumAtoms(p)
    ensures |out.dihedrals| == if p.numrings < 2 then 0 else (p.numrings - 2) * p.ringsize
    ensures GroLines(p, out.structure) && ItpLines(p, out.atoms)
    ensures forall k :: 0 <= k < NumAtoms(p) ==> out.bonds[k] == RingBondAt(p.ringsize, k)
    ensures InterRingLines(p.ringsize, out.bonds[NumAtoms(p)..])
    ensures forall k :: 0 <= k < |out.angles| ==> out.angles[k] == AngleAt(p.ringsize, k)
    ensures forall k :: 0 <= k < |out.dihedrals| ==> out.dihedrals[k] == DihedralAt(p.ringsize, k)
    ensures forall k :: 0 <= k < |out.restraints| ==> out.restraints[k] == Restraint(k + 1, 1, 1000, 1000, 1000)
    ensures forall b :: b in out.bonds ==> IsAtom(p.numrings, p.ringsize, b.ai) && IsAtom(p.numrings, p.ringsize, b.aj)
    ensures forall t :: t in out.angles ==>
      IsAtom(p.numrings, p.ringsize, t.ai) && IsAtom(p.numrings, p.ringsize, t.aj) && IsAtom(p.numrings, p.ringsize, t.ak)
    ensures forall d :: d in out.dihedrals ==>
      && IsAtom(p.numrings, p.ringsize, d.ai) && IsAtom(p.numrings, p.ringsize, d.aj)
      && IsAtom(p.numrings, p.ringsize, d.ak) && IsAtom(p.numrings, p.ringsize, d.al)
  {
    var nr, rs := p.numrings, p.ringsize;
    var structure := StructureAtoms(p);
    var atoms := TopologyAtoms(p);
    var ringBonds := RingBonds(nr, rs);
    var interBonds := InterRingBonds(nr, rs);
    var angles := Angles(nr, rs);
    var dihedrals := Dihedrals(nr, rs);
    var restraints := PositionRestraints(nr * rs);
    out := Output(structure, atoms, ringBonds + interBonds, angles, dihedrals, restraints);
    BondsSection(nr * rs, rs, ringBonds, interBonds);
    AtomLinesAgree(p, structure, atoms);
    RingBondsConnectAtoms(nr, rs, ringBonds);
    InterRingBondsConnectAtoms(nr, rs, interBonds);
    AnglesConnectAtoms(nr, rs, angles);
    DihedralsConnectAtoms(nr, rs, dihedrals);
  }

  /** The [ bonds ] section is the ring bonds followed by the inter-ring bonds. */
  lemma BondsSection(n: nat, rs: nat, ring: seq<Bond>, inter: seq<Bond>)
    requires rs > 0 && |ring| == n
    requires forall k :: 0 <= k < n ==> ring[k] == RingBondAt(rs, k)
    requires InterRingLines(rs, inter)
    ensures forall k :: 0 <= k < n ==> (ring + inter)[k] == RingBondAt(rs, k)
    ensures InterRingLines(rs, (ring + inter)[n..])
  {
    assert (ring + inter)[n..] == inter;
  }

  /** The .gro and .itp atom lines of the same serial carry the same name; the letter picks the bead type. */
  lemma AtomLinesAgree(p: Params, structure: seq<GroAtom>, atoms: seq<ItpAtom>)
    requires p.ringsize > 0 && GroLines(p, structure) && ItpLines(p, atoms) && |structure| == |atoms|
    ensures forall k :: 0 <= k < |atoms| ==>
      && atoms[k].nr == k + 1
      && structure[k].atomname == atoms[k].atomname
      && |atoms[k].atomname| == 4
      && atoms[k].beadtype == (if atoms[k].atomname[0] == 'F' then p.functype else p.beadtype)
  {
    forall k | 0 <= k < |atoms|
      ensures && atoms[k].nr == k + 1
        && structure[k].atomname == atoms[k].atomname
        && |atoms[k].atomname| == 4
        && atoms[k].beadtype == (if atoms[k].atomname[0] == 'F' then p.functype else p.beadtype)
    {
      assert atoms[k] == ItpAtomOf(p, k + 1);
      assert structure[k] == GroAtomOf(p, k + 1);
    }
  }

  /** Every ring bond joins two atoms of the tube. */
  lemma RingBondsConnectAtoms(nr: nat, rs: nat, bonds: seq<Bond>)
    requires rs > 0 && |bonds| == nr * rs
    requires forall k :: 0 <= k < |bonds| ==> bonds[k] == RingBondAt(rs, k)
    ensures forall b :: b in bonds ==> IsAtom(nr, rs, b.ai) && IsAtom(nr, rs, b.aj)
  {
    forall b | b in bonds
      ensures IsAtom(nr, rs, b.ai) && IsAtom(nr, rs, b.aj)
    {
      var k :| 0 <= k < |bonds| && bonds[k] == b;
      RingBondInRing(nr, rs, k);
    }
  }

  /** Every inter-ring bond joins two atoms of the tube. */
  lemma InterRingBondsConnectAtoms(nr: nat, rs: nat, bonds: seq<Bond>)
    requires rs > 0 && |bonds| == (if nr == 0 then 0 else 2 * (nr - 1) * rs) && InterRingLines(rs, bonds)
    ensures forall b :: b in bonds ==> IsAtom(nr, rs, b.ai) && IsAtom(nr, rs, b.aj)
  {
    forall b | b in bonds
      ensures IsAtom(nr, rs, b.ai) && IsAtom(nr, rs, b.aj)
    {
      var k :| 0 <= k < |bonds| && bonds[k] == b;
      InterRingBondSpan(nr, rs, k);
      FewerRings(nr - 1, nr, rs);
    }
  }

  /** Every angle of the [ angles ] section is made of atoms of the tube. */
  lemma AnglesConnectAtoms(nr: nat, rs: nat, angles: seq<Angle>)
    requires rs > 0 && |angles| == nr * rs
    requires forall k :: 0 <= k < |angles| ==> angles[k] == AngleAt(rs, k)
    ensures forall t :: t in angles ==>
      IsAtom(nr, rs, t.ai) && IsAtom(nr, rs, t.aj) && IsAtom(nr, rs, t.ak)
  {
    forall t | t in angles
      ensures IsAtom(nr, rs, t.ai) && IsAtom(nr, rs, t.aj) && IsAtom(nr, rs, t.ak)
    {
      var k :| 0 <= k < |angles| && angles[k] == t;
      AngleInRing(nr, rs, k);
    }
  }

  /** Every improper dihedral of the [ dihedrals ] section is made of atoms of the tube. */
  lemma DihedralsConnectAtoms(nr: nat, rs: nat, dihedrals: seq<Dihedral>)
    requires rs > 0 && |dihedrals| == (if nr < 2 then 0 else (nr - 2) * rs)
    requires forall k :: 0 <= k < |dihedrals| ==> dihedrals[k] == DihedralAt(rs, k)
    ensures forall d :: d in dihedrals ==>
      && IsAtom(nr, rs, d.ai) && IsAtom(nr, rs, d.aj)
      && IsAtom(nr, rs, d.ak) && IsAtom(nr, rs, d.al)
  {
    forall d | d in dihedrals
      ensures IsAtom(nr, rs, d.ai) && IsAtom(nr, rs, d.aj) && IsAtom(nr, rs, d.ak) && IsAtom(nr, rs, d.al)
    {
      var k :| 0 <= k < |dihedrals| && dihedrals[k] == d;
      DihedralSpan(nr, rs, k);
      FewerRings(nr - 2, nr, rs);
      var a := k + 1;
      StraightAcross(rs, a);
      SerialRange(rs, nr, a + rs);
    }
  }

  lemma FewerRings(fewer: nat, numrings: nat, rs: nat)
    requires fewer <= numrings
    ensures fewer * rs <= numrings * rs
  {
    assert numrings * rs == fewer * rs + (numrings - fewer) * rs;
  }
}
