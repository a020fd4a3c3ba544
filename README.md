# Martini carbon-nanotube generator, integer core

`martini-cnt-generator.py` writes three files for an open carbon nanotube
in the Martini coarse-grained force field:
- a `.gro` structure file;
- an `.itp` topology file, with the [ atoms ], [ bonds ], [ angles ] and
  [ dihedrals ] sections;
- a `-posres.itp` position-restraint file.

The tube has `numrings` rings of `ringsize` beads. The bead at 0-based
ring `r` and 0-based position `q` has the 1-based serial
`r*ringsize + q + 1`.

This project models the integer logic behind those files:
- the base-36 encoder `b36_encode`;
- the three-character atom names, which are decimal modulo 1000 or base 36
  modulo 36 cubed, zero-filled;
- the split of rings into functionalized (`F`, bead type `functype`) and
  regular (`C`, bead type `beadtype`) rings;
- the two atom loops;
- the loops that list ring bonds, inter-ring bonds, in-ring angles and
  improper dihedrals;
- the restraint loop.

Each loop is a method that appends records to a sequence, as the script
appends lines to a file. Its postcondition gives the record at every
index k as a closed form of k (`RingBondAt`, `InterRingBondAt`,
`AngleAt`, `DihedralAt`, `GroAtomOf`, `ItpAtomOf`). The ring arithmetic of
module `Rings` states what those records connect: same ring, next
position, next ring, diagonal partner.

Modules:
- `Rings` (`rings.dfy`): serial, ring and position arithmetic, and the
  ring successor, predecessor and diagonal partner.
- `Base36` (`base36.dfy`): `b36_encode`, Python's decimal `str` and
  `str.zfill`, and a positional decoder used to state what they produce.
- `Atoms` (`atoms.dfy`): atom names, the classification, and the `.gro`
  and `.itp` atom loops.
- `Topology` (`topology.dfy`): the bond, angle, dihedral and restraint
  loops, with lemmas about every record they write.
- `Generator` (`generator.dfy`): the whole run, in the script's order.

## Model

| member | source | states |
|---|---|---|
| Base36.AlphabetText | martini-cnt-generator.py:41 | the digit of value d, for d = 0..35, is character d of the encoder's digit string "0123456789abcdefghijklmnopqrstuvwxyz" |
| Base36.Encode | martini-cnt-generator.py:40-44 | for i >= 0: a non-empty base-36 numeral whose value is i, with no leading zero unless i == 0, one character exactly when i < 36; for i < 0: '-' followed by base-36 digits whose value is -i, the first of them not '0' |
| Base36.EncodeRoundTrip | martini-cnt-generator.py:40-44 | reading the encoding back in base 36, sign included, gives i for every integer i |
| Base36.EncodeLength | martini-cnt-generator.py:99 | a natural number fits in k base-36 digits exactly when it is below 36^k; so `n % 36**3` never needs more than three digits |
| Base36.EncodeSamples | martini-cnt-generator.py:40-44 | 35 encodes as "z", 36 as "10", and 0 zero-fills to "000" |
| Base36.Decimal | martini-cnt-generator.py:101 | Python's `str` of a natural number: non-empty decimal digits whose value is the number, with no leading zero unless it is 0 |
| Base36.ValueBound | martini-cnt-generator.py:99 | a k-digit numeral in radix b has a value below b^k |
| Base36.ZFill | martini-cnt-generator.py:99 | Python's `str.zfill`: the result has the input's length, or `width` when the input is shorter; its characters are given by `Base36.ZFillContents` |
| Base36.ZFillContents | martini-cnt-generator.py:99 | the result is the input preceded by as many '0' as it lacks to reach `width`, and a leading '+' or '-' stays in front of those zeros |
| Base36.LeadingZeros | martini-cnt-generator.py:99-101 | zero-filling on the left does not change the value of a numeral |
| Atoms.AtomName | martini-cnt-generator.py:98-101 | every atom name (the same rule at lines 159-162) is exactly three digits of its radix (36 or 10), and its value is the serial modulo 36^3 or 1000 |
| Atoms.PaddedName | martini-cnt-generator.py:99 | zero-filling a numeral of at most three digits to width 3 gives three digits of the same value |
| Atoms.DecimalLength | martini-cnt-generator.py:101 | a number below 1000 has at most three decimal digits, so `"%03d"` is its zero-filled decimal string |
| Atoms.AtomNameWraps | martini-cnt-generator.py:98-101 | two serials get the same name exactly when they agree modulo the name modulus |
| Atoms.AtomNamesDistinct | martini-cnt-generator.py:98-101 | the serials 1..N have pairwise distinct names exactly when N is at most 1000 (decimal) or 36^3 (base 36) |
| Atoms.Functionalized | martini-cnt-generator.py:103 | for a ring of the tube (the same test at line 164): functionalized exactly when it is among the first numfuncb rings or fewer than numfunce rings follow it; with no functionalized rings requested, every ring is regular |
| Atoms.FullName | martini-cnt-generator.py:103-106 | the written name has four characters: 'F' for a functionalized ring or 'C' otherwise, then the three-character atom name |
| Atoms.AtomSerialsExact | martini-cnt-generator.py:155-157 | the [ atoms ] lines carry strictly increasing serials within 1..N, where N is the number of lines |
| Atoms.StructureAtoms | martini-cnt-generator.py:90-106 | the `.gro` loop writes numrings*ringsize lines; line k has residue 1 "  CNT", the full name of serial k+1 (class taken from ring (k+1-1) div ringsize) and number (k+1) mod 100000 |
| Atoms.TopologyAtoms | martini-cnt-generator.py:155-167 | the `.itp` loop writes numrings*ringsize lines; line k has serial k+1, bead type functype or beadtype by the same ring rule, residue 1 CNT, the same full name, charge group (k+1) mod 1000, charge 0 and mass 48 |
| Atoms.FunctionalizedSerials | martini-cnt-generator.py:103 | an atom is functionalized exactly when its serial is at most numfuncb*ringsize or above (numrings-numfunce)*ringsize |
| Rings.SerialParts | martini-cnt-generator.py:92 | the serial `i*ringsize + j + 1` is in ring i at position j whenever j < ringsize |
| Rings.SerialOfParts | martini-cnt-generator.py:92 | every serial is rebuilt from its ring and position |
| Rings.SerialRange | martini-cnt-generator.py:56 | a serial is at most numrings*ringsize exactly when its ring is below numrings |
| Rings.StraightAcross | martini-cnt-generator.py:191 | serial n + ringsize is at the same position of the next ring |
| Rings.NextInRingStep | martini-cnt-generator.py:180 | the ring successor stays in the ring and advances the position by one, the last wrapping to the first |
| Rings.PrevInRingStep | martini-cnt-generator.py:196 | the ring predecessor stays in the ring and moves the position back by one, the first wrapping to the last |
| Rings.NextPrevInverse | martini-cnt-generator.py:193-206 | stepping forward and back around a ring undo each other |
| Rings.DiagonalInNextRing | martini-cnt-generator.py:189-207 | the diagonal partner is in the next ring, one position behind (even 0-based ring) or ahead (odd) of the bead, and is a ring neighbour of the straight partner |
| Topology.SourceNext | martini-cnt-generator.py:180 | `(m-1)*ringsize + n%ringsize + 1` is the ring successor of atom `(m-1)*ringsize + n` |
| Topology.SourceNextNext | martini-cnt-generator.py:221 | `(m-1)*ringsize + (n+1)%ringsize + 1` is the successor of that successor |
| Topology.SourceDiagonal | martini-cnt-generator.py:189-207 | with at least two beads per ring, each of the four branches of the parity rule for k gives the diagonal partner of i |
| Topology.InterRingPair | martini-cnt-generator.py:190-207 | appending the straight and the diagonal bond of atom i after its 2*(i-1) predecessors keeps every inter-ring line at its closed form |
| Topology.DihedralLine | martini-cnt-generator.py:233-249 | the source's quadruple for atom i, in either parity order, is dihedral line i-1 |
| Topology.RingBonds | martini-cnt-generator.py:177-181 | numrings*ringsize bonds; bond k joins serial k+1 to its ring successor, function type 1 |
| Topology.InterRingBonds | martini-cnt-generator.py:186-207 | 2*(numrings-1)*ringsize bonds (none for zero rings), two per atom of every ring but the last: first the straight bond to i+ringsize, then the bond to the diagonal partner |
| Topology.Angles | martini-cnt-generator.py:217-222 | numrings*ringsize angles; angle k is serial k+1 and the next two beads around its ring, function type 2 |
| Topology.Dihedrals | martini-cnt-generator.py:231-249 | (numrings-2)*ringsize dihedrals (none for fewer than two rings); dihedral k is the atom k+1, its straight partners one and two rings on, and its diagonal partner, second for an even 0-based ring and third for an odd one |
| Topology.PositionRestraints | martini-cnt-generator.py:278-279 | numatoms entries; entry k restrains serial k+1 with function type 1 and force constants 1000 1000 1000 |
| Topology.RingBondInRing | martini-cnt-generator.py:177-181 | every ring bond joins two atoms of the tube in the same ring, the second at the next position (wrapping) |
| Topology.InterRingBondSpan | martini-cnt-generator.py:186-207 | every inter-ring bond starts in a ring other than the last and ends in the next ring, at the same position (straight) or one position behind or ahead by parity (diagonal) |
| Topology.AngleInRing | martini-cnt-generator.py:217-222 | every angle is three consecutive, wrapping positions of one ring, all atoms of the tube |
| Topology.DihedralSpan | martini-cnt-generator.py:231-249 | in every dihedral, i, j and l are the same position of rings r, r+1 and r+2, and k is the same diagonal partner as the inter-ring bond of i; all are atoms of the tube |
| Generator.Generate | martini-cnt-generator.py:90-279 | the whole run: every `.gro` and `.itp` atom line at its closed form for serial k+1; the [ bonds ] section is the numrings*ringsize ring bonds followed by the inter-ring bonds, each line at its closed form; every angle, dihedral and restraint line at its closed form; the record counts of every section; `.gro` and `.itp` names agree line by line and are four characters long; the bead type is functype exactly for 'F' names; every bond, angle and dihedral joins atoms of the tube |
| Generator.BondsSection | martini-cnt-generator.py:175-207 | in the [ bonds ] section, the first numrings*ringsize lines are the ring bonds and the lines after them are the inter-ring bonds, each at its closed form |
| Generator.AtomLinesAgree | martini-cnt-generator.py:103-106 | the `.gro` and `.itp` atom lines of each serial carry the same name, and the `.itp` bead type follows its letter |
| Generator.RingBondsConnectAtoms | martini-cnt-generator.py:177-181 | every ring bond written joins two atoms of the tube |
| Generator.InterRingBondsConnectAtoms | martini-cnt-generator.py:186-207 | every inter-ring bond written joins two atoms of the tube |
| Generator.AnglesConnectAtoms | martini-cnt-generator.py:217-222 | every angle written is made of atoms of the tube |
| Generator.DihedralsConnectAtoms | martini-cnt-generator.py:231-249 | every dihedral written is made of atoms of the tube |

## Left out

- Command-line parsing with argparse (lines 9-34) and the banner prints (61-66). The parameters are the fields of `Atoms.Params`.
- File opening, writing and closing. The lines of each file are modelled as sequences of records.
- The title and header lines of the files (81-85, 138-152, 172-175, 184, 212-215, 227-228, 254-257, 275-276).
- The name of the included restraint file at line 256.
- The default file name (51-54).
- Floating-point geometry: the ring angle, radius and bead coordinates (57-58, 93-96), the angle constants computed with `acos` and `tan` (133-134), and the box line (111-115). Bond length, force constants and equilibrium angles are not fields of the records.
- Fixed-width text formatting (`%5d`, `%-5s`, `%3d` and the float fields). Each record keeps the integer and string values written into the line, not the padded text.
- numrings and ringsize are natural numbers. The script would accept negative values from the command line; those are not modelled.
- ringsize 0 is excluded, because the script divides by ringsize at line 57.
- Topology.InterRingBonds: requires ringsize >= 2. With one bead per ring the script never reaches its bond loops. At line 134, `tan` of the floating-point pi/2 is about 1.6e16, so the argument of `acos` is far above 1 and `acos` raises a math domain error. At that point the `.gro` file is complete, the `.itp` file is open but empty, and no restraint file is written.
- Topology.Dihedrals: requires ringsize >= 2, for the same reason as `Topology.InterRingBonds`: with one bead per ring the script stops at line 134 before its dihedral loop.
- Generator.Generate: requires ringsize >= 2, because with one bead per ring the script stops at line 134. The run it models is the one that completes. For one bead per ring, `Atoms.StructureAtoms` (which requires only ringsize > 0) still describes the `.gro` atom lines the script writes before it stops. The error exit itself is not modelled, since it comes from floating-point `acos`.
- Negative numfuncb and numfunce are allowed and follow the same comparison as the script. `Atoms.FunctionalizedSerials` holds for any values.
