/**
  The atoms of the tube: their serials, three-character names and
  classification into functionalized and regular beads, and the two loops
  that list them, once for the .gro structure file and once for the
  [ atoms ] section of the .itp topology.
*/
module Atoms {
  import opened Rings
  import opened Base36

  /**
    The integer and text parameters of the generator. Bond length and force
    constants only enter floating-point fields and are not part of the model.
  */
  datatype Params = Params(
    numrings: nat,
    ringsize: nat,
    beadtype: string,
    functype: string,
    numfuncb: int,
    numfunce: int,
    base36: bool)

  /** One atom line of the .gro file, without its coordinates and velocities. */
  datatype GroAtom = GroAtom(resnr: nat, resname: string, atomname: string, number: nat)

  /** One line of the [ atoms ] section of the .itp file. */
  datatype ItpAtom = ItpAtom(
    nr: nat,
    beadtype: string,
    resnr: nat,
    residue: string,
    atomname: string,
    cgnr: nat,
    charge: int,
    mass: nat)

  function Radix(base36: bool): nat
  {
    if base36 then 36 else 10
  }

  /** The serial at which the names start over. */
  function NameModulus(base36: bool): nat
  {
    if base36 then Base36Modulus else 1000
  }

  /**
    The name of serial `n`: its remainder modulo 36 cubed in base 36, or its
    remainder modulo 1000 in decimal, padded with zeros to three characters.
    The decimal form is `"%03d" % (n % 1000)`, which for a number below 1000
    is its decimal string zero-filled to width three. Every name is three
    digits of its radix whose value is the serial modulo the name modulus.
  */
  function AtomName(base36: bool, n: nat): (s: string)
    ensures |s| == 3 && IsDigits(s, Radix(base36))
    ensures Value(s, Radix(base36)) == n % NameModulus(base36)
  {
    if base36 then
      EncodeLength(n % Base36Modulus, 3);
      PaddedName(Encode(n % Base36Modulus), 36);
      ZFill(Encode(n % Base36Modulus), 3)
    else
      DecimalLength(n % 1000);
      PaddedName(Decimal(n % 1000), 10);
      ZFill(Decimal(n % 1000), 3)
  }

  /** Zero-filling a digit string of at most three digits keeps its digits and value. */
  lemma PaddedName(e: string, radix: nat)
    requires |e| <= 3 && IsDigits(e, radix) && 1 <= radix <= 36
    ensures |ZFill(e, 3)| == 3 && IsDigits(ZFill(e, 3), radix)
    ensures Value(ZFill(e, 3), radix) == Value(e, radix)
  {
    if |e| > 0 {
      assert DigitValue(e[0]) < 36;
    }
    var z := Zeros(3 - |e|);
    assert ZFill(e, 3) == z + e;
    LeadingZeros(3 - |e|, e, radix);
    ZerosDigits(3 - |e|, radix);
    DigitsConcat(z, e, radix);
  }

  lemma DecimalLength(x: nat)
    requires x < 1000
    ensures |Decimal(x)| <= 3
  {
    if x >= 10 {
      assert |Decimal(x)| == |Decimal(x / 10)| + 1;
      if x / 10 >= 10 {
        assert |Decimal(x / 10)| == |Decimal(x / 100)| + 1;
      }
    }
  }

  /** Two serials get the same name exactly when they agree modulo the name modulus. */
  lemma AtomNameWraps(base36: bool, n: nat, m: nat)
    ensures AtomName(base36, n) == AtomName(base36, m) <==> n % NameModulus(base36) == m % NameModulus(base36)
  {
  }

  /**
    The serials 1..numatoms have pairwise distinct names exactly when there
    are no more of them than the name modulus (1000 decimal, 36 cubed base 36).
  */
  lemma AtomNamesDistinct(base36: bool, numatoms: nat)
    ensures (forall n1, n2 :: 1 <= n1 < n2 <= numatoms ==> AtomName(base36, n1) != AtomName(base36, n2))
        <==> numatoms <= NameModulus(base36)
  {
    var M := NameModulus(base36);
    if numatoms <= M {
      forall n1, n2 | 1 <= n1 < n2 <= numatoms
        ensures AtomName(base36, n1) != AtomName(base36, n2)
      {
        DivModUnique(n1, M, 0, n1);
        if n2 < M {
          DivModUnique(n2, M, 0, n2);
        } else {
          DivModUnique(n2, M, 1, 0);
        }
        AtomNameWraps(base36, n1, n2);
      }
    } else {
      DivModUnique(1, M, 0, 1);
      DivModUnique(M + 1, M, 1, 1);
      AtomNameWraps(base36, 1, M + 1);
    }
  }

  /**
    Whether 0-based ring `r` is one of the `numfuncb` first or the `numfunce`
    last rings. Counted from the far end, a ring of the tube is among the
    last `numfunce` exactly when fewer than `numfunce` rings follow it; with
    no functionalized rings requested, every ring of the tube is regular.
  */
  predicate Functionalized(p: Params, r: int): (f: bool)
    ensures 0 <= r < p.numrings ==> (f <==> r < p.numfuncb || p.numrings - 1 - r < p.numfunce)
    ensures p.numfuncb <= 0 && p.numfunce <= 0 && 0 <= r < p.numrings ==> !f
  {
    r < p.numfuncb || r >= p.numrings - p.numfunce
  }

  /** The class letter and number name of serial `n`, as both output files write it. */
  function FullName(p: Params, n: nat): (s: string)
    requires p.ringsize > 0 && n >= 1
    ensures |s| == 4 && s[1..] == AtomName(p.base36, n)
    ensures s[0] == (if Functionalized(p, RingOf(p.ringsize, n)) then 'F' else 'C')
  {
    (if Functionalized(p, RingOf(p.ringsize, n)) then "F" else "C") + AtomName(p.base36, n)
  }

  /** The .gro line of serial `n`: residue 1 named CNT, the full name, the serial modulo 100000. */
  function GroAtomOf(p: Params, n: nat): GroAtom
    requires p.ringsize > 0 && n >= 1
  {
    GroAtom(1, "  CNT", FullName(p, n), n % 100000)
  }

  /** The .itp atom line of serial `n`: functionalized atoms take the functional bead type. */
  function ItpAtomOf(p: Params, n: nat): ItpAtom
    requires p.ringsize > 0 && n >= 1
  {
    var bead := if Functionalized(p, RingOf(p.ringsize, n)) then p.functype else p.beadtype;
    ItpAtom(n, bead, 1, "CNT", FullName(p, n), n % 1000, 0, 48)
  }

  /** Line k of `atoms` is the .gro line of serial k+1, for every line. */
  predicate GroLines(p: Params, atoms: seq<GroAtom>)
    requires p.ringsize > 0
  {
    forall k :: 0 <= k < |atoms| ==> atoms[k] == GroAtomOf(p, k + 1)
  }

  lemma GroLinesAppend(p: Params, atoms: seq<GroAtom>, n: nat)
    requires p.ringsize > 0 && GroLines(p, atoms) && n == |atoms| + 1
    ensures GroLines(p, atoms + [GroAtomOf(p, n)])
  {
  }

  /** Line k of `atoms` is the .itp atom line of serial k+1, for every line. */
  predicate ItpLines(p: Params, atoms: seq<ItpAtom>)
    requires p.ringsize > 0
  {
    forall k :: 0 <= k < |atoms| ==> atoms[k] == ItpAtomOf(p, k + 1)
  }

  lemma ItpLinesAppend(p: Params, atoms: seq<ItpAtom>, n: nat)
    requires p.ringsize > 0 && ItpLines(p, atoms) && n == |atoms| + 1
    ensures ItpLines(p, atoms + [ItpAtomOf(p, n)])
  {
  }

  /**
    The [ atoms ] lines carry strictly increasing serials within 1..N, N
    being the number of lines; so they list every serial of 1..N once, in
    order.
  */
  lemma AtomSerialsExact(p: Params, atoms: seq<ItpAtom>)
    requires p.ringsize > 0 && ItpLines(p, atoms)
    ensures forall k1, k2 :: 0 <= k1 < k2 < |atoms| ==> atoms[k1].nr < atoms[k2].nr
    ensures forall k :: 0 <= k < |atoms| ==> 1 <= atoms[k].nr <= |atoms|
  {
    forall k | 0 <= k < |atoms|
      ensures atoms[k].nr == k + 1
    {
      assert atoms[k] == ItpAtomOf(p, k + 1);
    }
  }

  /**
    The atom loop of the .gro file: rings from 0, positions from 0, one line
    per atom. Line k describes serial k+1, whose ring is (k+1-1) div ringsize.
  */
  method StructureAtoms(p: Params) returns (atoms: seq<GroAtom>)
    requires p.ringsize > 0
    ensures |atoms| == p.numrings * p.ringsize
    ensures GroLines(p, atoms)
  {
    var rs := p.ringsize;
    atoms := [];
    var i := 0;
    while i < p.numrings
      invariant 0 <= i <= p.numrings
      invariant |atoms| == i * rs
      invariant GroLines(p, atoms)
    {
      var j := 0;
      while j < rs
        invariant 0 <= j <= rs
        invariant |atoms| == i * rs + j
        invariant GroLines(p, atoms)
      {
        var n := i * rs + j + 1;
        var atomname := AtomName(p.base36, n);
        SerialParts(rs, i, j);
        assert RingOf(rs, n) == i;
        ghost var before := atoms;
        if i < p.numfuncb || i >= p.numrings - p.numfunce {
          atoms := atoms + [GroAtom(1, "  CNT", "F" + atomname, n % 100000)];
        } else {
          atoms := atoms + [GroAtom(1, "  CNT", "C" + atomname, n % 100000)];
        }
        assert atoms == before + [GroAtomOf(p, n)];
        GroLinesAppend(p, before, n);
        j := j + 1;
      }
      i := i + 1;
    }
  }

  /**
    The atom loop of the .itp file: rings from 0, positions from 1, serial
    `m*ringsize + n`. It lists the same serials in the same order as the .gro
    loop and classifies them by the same rule.
  */
  method TopologyAtoms(p: Params) returns (atoms: seq<ItpAtom>)
    requires p.ringsize > 0
    ensures |atoms| == p.numrings * p.ringsize
    ensures ItpLines(p, atoms)
  {
    var rs := p.ringsize;
    atoms := [];
    var m := 0;
    while m < p.numrings
      invariant 0 <= m <= p.numrings
      invariant |atoms| == m * rs
      invariant ItpLines(p, atoms)
    {
      var n := 1;
      while n <= rs
        invariant 1 <= n <= rs + 1
        invariant |atoms| == m * rs + n - 1
        invariant ItpLines(p, atoms)
      {
        var i := m * rs + n;
        var atomname := AtomName(p.base36, i);
        SerialParts(rs, m, n - 1);
        assert RingOf(rs, i) == m;
        ItpLinesAppend(p, atoms, i);
        ghost var before := atoms;
        if m < p.numfuncb || m >= p.numrings - p.numfunce {
          atoms := atoms + [ItpAtom(i, p.functype, 1, "CNT", "F" + atomname, i % 1000, 0, 48)];
        } else {
          atoms := atoms + [ItpAtom(i, p.beadtype, 1, "CNT", "C" + atomname, i % 1000, 0, 48)];
        }
        assert atoms == before + [ItpAtomOf(p, i)];
        n := n + 1;
      }
      assert |atoms| == (m + 1) * rs;
      m := m + 1;
    }
  }

  /**
    Classification in terms of serials: an atom is functionalized exactly
    when it belongs to the first `numfuncb` rings (serial at most
    numfuncb*ringsize) or to the last `numfunce` rings (serial above
    (numrings-numfunce)*ringsize). Holds for any, even negative, counts.
  */
  lemma FunctionalizedSerials(p: Params, n: nat)
    requires p.ringsize > 0 && n >= 1
    ensures Functionalized(p, RingOf(p.ringsize, n))
        <==> n <= p.numfuncb * p.ringsize || n > (p.numrings - p.numfunce) * p.ringsize
  {
    FloorBelow(n - 1, p.ringsize, p.numfuncb);
    FloorBelow(n - 1, p.ringsize, p.numrings - p.numfunce);
  }

  /** `x div d` is below `t` exactly when `x` is below `t*d`. */
  lemma FloorBelow(x: nat, d: nat, t: int)
    requires d > 0
    ensures x / d < t <==> x < t * d
  {
    var q := x / d;
    assert q * d <= x < q * d + d;
    if q < t {
      MulNonneg(t - q - 1, d);
      assert t * d == (t - q - 1) * d + q * d + d;
    } else {
      MulNonneg(q - t, d);
      assert q * d == (q - t) * d + t * d;
    }
  }

  lemma MulNonneg(a: int, b: int)
    requires a >= 0 && b >= 0
    ensures a * b >= 0
  {
  }
}
