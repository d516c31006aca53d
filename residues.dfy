/** The residue property table: hydrophobicity, molecular weight and
    isoelectric point for each of the 20 canonical amino-acid letters, and
    the signed mutant-minus-wild deltas derived from it.

    Values are exact reals, so a delta is exactly the difference of two
    table entries (the source's binary floating point is not modelled). */
module Residues {

  /** Physicochemical constants of one residue. */
  datatype ResidueProps = ResidueProps(hydro: real, mw: real, pi: real)

  /** The three signed deltas of a substitution, mutant minus wild. */
  datatype DeltaVec = DeltaVec(hydro: real, mw: real, pi: real)

  /** The process-wide constant table, keyed by upper-case one-letter code. */
  const AaProps: map<char, ResidueProps> := map[
    'A' := ResidueProps(1.8, 89.1, 6.00),   'R' := ResidueProps(-4.5, 174.2, 10.76),
    'N' := ResidueProps(-3.5, 132.1, 5.41), 'D' := ResidueProps(-3.5, 133.1, 2.77),
    'C' := ResidueProps(2.5, 121.2, 5.07),  'Q' := ResidueProps(-3.5, 146.2, 5.65),
    'E' := ResidueProps(-3.5, 147.1, 3.22), 'G' := ResidueProps(-0.4, 75.1, 5.97),
    'H' := ResidueProps(-3.2, 155.2, 7.59), 'I' := ResidueProps(4.5, 131.2, 6.02),
    'L' := ResidueProps(3.8, 131.2, 5.98),  'K' := ResidueProps(-3.9, 146.2, 9.74),
    'M' := ResidueProps(1.9, 149.2, 5.74),  'F' := ResidueProps(2.8, 165.2, 5.48),
    'P' := ResidueProps(-1.6, 115.1, 6.30), 'S' := ResidueProps(-0.8, 105.1, 5.68),
    'T' := ResidueProps(-0.7, 119.1, 5.60), 'W' := ResidueProps(-0.9, 204.2, 5.89),
    'Y' := ResidueProps(-1.3, 181.2, 5.66), 'V' := ResidueProps(4.2, 117.1, 5.96)
  ]

  /** The recognised residue letters: the keys of the table. */
  const ValidAas: set<char> := AaProps.Keys

  /** The table has exactly the 20 canonical upper-case letters as keys. */
  lemma CanonicalAlphabet()
    ensures ValidAas == {'A', 'R', 'N', 'D', 'C', 'Q', 'E', 'G', 'H', 'I',
                         'L', 'K', 'M', 'F', 'P', 'S', 'T', 'W', 'Y', 'V'}
  {
  }

  /** Every key is an upper-case ASCII letter. */
  lemma AlphabetUpper()
    ensures forall c :: c in ValidAas ==> 'A' <= c <= 'Z'
  {
  }

  /** Molecular weight and isoelectric point are positive for every entry. */
  lemma PositiveWeightAndPi(c: char)
    requires c in AaProps
    ensures AaProps[c].mw > 0.0 && AaProps[c].pi > 0.0
  {
  }

  /** No two residues share an isoelectric point, so the table is injective. */
  lemma DistinctIsoelectricPoints(a: char, b: char)
    requires a in AaProps && b in AaProps
    ensures a != b <==> AaProps[a].pi != AaProps[b].pi
  {
  }

  /** Mutant minus wild, for each of the three properties. */
  function Delta(wild: char, mutant: char): (d: DeltaVec)
    requires wild in AaProps && mutant in AaProps
    ensures d.hydro + AaProps[wild].hydro == AaProps[mutant].hydro
    ensures d.mw + AaProps[wild].mw == AaProps[mutant].mw
    ensures d.pi + AaProps[wild].pi == AaProps[mutant].pi
  {
    DeltaVec(AaProps[mutant].hydro - AaProps[wild].hydro,
             AaProps[mutant].mw - AaProps[wild].mw,
             AaProps[mutant].pi - AaProps[wild].pi)
  }

  function Negate(d: DeltaVec): DeltaVec {
    DeltaVec(-d.hydro, -d.mw, -d.pi)
  }

  /** Swapping wild and mutant negates every delta. */
  lemma DeltaAntisymmetric(wild: char, mutant: char)
    requires wild in AaProps && mutant in AaProps
    ensures Delta(mutant, wild) == Negate(Delta(wild, mutant))
  {
  }

  /** A substitution of one recognised residue for another always moves the
      isoelectric point: the delta vector is zero exactly when wild == mutant. */
  lemma DeltaZeroIff(wild: char, mutant: char)
    requires wild in AaProps && mutant in AaProps
    ensures Delta(wild, mutant) == DeltaVec(0.0, 0.0, 0.0) <==> wild == mutant
    ensures wild != mutant ==> Delta(wild, mutant).pi != 0.0
  {
    DistinctIsoelectricPoints(wild, mutant);
  }
}
