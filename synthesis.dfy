/** Mutation feature synthesis: for each protein, 100 draw attempts of a
    (position, mutant letter) pair over its upper-cased sequence; a draw is
    kept when the wild-type letter is a recognised residue that differs from
    the mutant, and becomes a record of the protein id, the label and the
    three property deltas. All kept records are collected in protein order,
    then draw order, and the outcome is either the saved table or the
    "no mutations" case.

    The random number generator is replaced by an explicit stream of draws,
    consumed in order: each draw is what `np.random.randint(0, len)` and
    `np.random.choice(list(valid_aas))` returned together for one attempt.
    A protein too short to sample consumes no draws. */
module Synthesis {
  import opened Wrappers
  import opened Residues
  import opened Labels

  /** Sequences shorter than this are skipped. */
  const MinSequenceLength: nat := 10

  /** Draw attempts per protein (kept or not). */
  const AttemptsPerProtein: nat := 100

  /** One row of the input table: an accession id and its stored sequence
      text, which may be any string (lower case, FASTA header, ...). */
  datatype Protein = Protein(uniprotId: string, fastaSequence: string)

  /** One draw attempt: a position and a mutant letter. */
  datatype Draw = Draw(pos: nat, mutant: char)

  /** One row of the feature table. */
  datatype FeatureRecord = FeatureRecord(
    uniprotId: string, mutation: string, deltaHydro: real, deltaMw: real, deltaPi: real)

  /** What the run ends with: the table that is saved, or no mutations at all. */
  datatype Outcome = Saved(features: seq<FeatureRecord>) | NoMutationsGenerated

  // ---------------------------------------------------------------------
  // Upper-casing

  /** `str.upper` on one character, for the ASCII range. */
  function UpperChar(c: char): (u: char)
    ensures !('a' <= u <= 'z')
    ensures 'a' <= c <= 'z' ==> 'A' <= u <= 'Z' && u as int == c as int - 32
    ensures !('a' <= c <= 'z') ==> u == c
  {
    if 'a' <= c <= 'z' then (c as int - 32) as char else c
  }

  function Upper(s: string): (u: string)
    ensures |u| == |s|
    ensures forall i :: 0 <= i < |s| ==> u[i] == UpperChar(s[i])
  {
    seq(|s|, i requires 0 <= i < |s| => UpperChar(s[i]))
  }

  /** Upper-casing twice changes nothing more. */
  lemma UpperIdempotent(s: string)
    ensures Upper(Upper(s)) == Upper(s)
  {
  }

  /** Under this ASCII upper-casing, a character is recognised after
      upper-casing exactly when it is a table letter or the lower-case form
      of one. (Python's `str.upper` also maps 'ı' (U+0131) to 'I' and 'ſ'
      (U+017F) to 'S', which this model does not.) */
  lemma UpperCharRecognised(c: char)
    ensures UpperChar(c) in ValidAas <==>
      c in ValidAas || ('a' <= c <= 'z' && (c as int - 32) as char in ValidAas)
  {
    AlphabetUpper();
  }

  // ---------------------------------------------------------------------
  // One draw attempt

  predicate IsShort(p: Protein) {
    |Upper(p.fastaSequence)| < MinSequenceLength
  }

  /** The draws a protein consumes: none when it is skipped. */
  function DrawsFor(p: Protein): nat {
    if IsShort(p) then 0 else AttemptsPerProtein
  }

  /** A draw the generator can produce for a sequence of length `n`:
      a position in [0, n) and a letter of the table. */
  predicate DrawFits(d: Draw, n: nat) {
    d.pos < n && d.mutant in ValidAas
  }

  predicate AllFit(ds: seq<Draw>, n: nat) {
    forall k :: 0 <= k < |ds| ==> DrawFits(ds[k], n)
  }

  /** The acceptance filter of a draw on sequence `s`. */
  predicate Accepts(s: string, d: Draw)
    requires d.pos < |s|
  {
    s[d.pos] in ValidAas && s[d.pos] != d.mutant
  }

  /** The feature record of an accepted substitution. */
  function MakeRecord(pid: string, m: Substitution): FeatureRecord
    requires m.wild in ValidAas && m.mutant in ValidAas
  {
    var d := Delta(m.wild, m.mutant);
    FeatureRecord(pid, Label(m), d.hydro, d.mw, d.pi)
  }

  /** A record carries its protein's id, a label that parses back to its
      substitution, and the table deltas of that substitution. */
  lemma MakeRecordFaithful(pid: string, m: Substitution)
    requires m.wild in ValidAas && m.mutant in ValidAas
    ensures MakeRecord(pid, m).uniprotId == pid
    ensures ParseLabel(MakeRecord(pid, m).mutation) == Some(m)
    ensures var r := MakeRecord(pid, m);
      DeltaVec(r.deltaHydro, r.deltaMw, r.deltaPi) == Delta(m.wild, m.mutant)
  {
    AlphabetUpper();
    LabelRoundTrip(m);
  }

  /** `r` is a record that the sampler can produce for protein `pid` with
      upper-cased sequence `s`: its label names an in-range position holding
      a recognised wild letter, a different recognised mutant, and its deltas
      are the table differences of the two. */
  predicate RecordOf(r: FeatureRecord, pid: string, s: string) {
    && r.uniprotId == pid
    && match ParseLabel(r.mutation)
       case None => false
       case Some(m) =>
         && m.pos < |s| && s[m.pos] == m.wild
         && m.wild in ValidAas && m.mutant in ValidAas && m.wild != m.mutant
         && DeltaVec(r.deltaHydro, r.deltaMw, r.deltaPi) == Delta(m.wild, m.mutant)
  }

  /** What one attempt appends: a record for an accepted draw, else nothing. */
  function Attempt(pid: string, s: string, d: Draw): (rs: seq<FeatureRecord>)
    requires DrawFits(d, |s|)
    ensures |rs| <= 1
    ensures rs != [] <==> Accepts(s, d)
  {
    if Accepts(s, d) then [MakeRecord(pid, Substitution(s[d.pos], d.pos, d.mutant))] else []
  }

  /** The record an accepted draw appends belongs to the protein, passes the
      filter, and its label names exactly the drawn position and letters. */
  lemma AttemptRecord(pid: string, s: string, d: Draw)
    requires DrawFits(d, |s|) && Accepts(s, d)
    ensures RecordOf(Attempt(pid, s, d)[0], pid, s)
    ensures ParseLabel(Attempt(pid, s, d)[0].mutation) == Some(Substitution(s[d.pos], d.pos, d.mutant))
  {
    MakeRecordFaithful(pid, Substitution(s[d.pos], d.pos, d.mutant));
  }

  // ---------------------------------------------------------------------
  // The attempts on one protein

  /** The records kept from the draws `ds`, in draw order. */
  function Attempts(pid: string, s: string, ds: seq<Draw>): seq<FeatureRecord>
    requires AllFit(ds, |s|)
  {
    if ds == [] then [] else Attempts(pid, s, ds[..|ds| - 1]) + Attempt(pid, s, ds[|ds| - 1])
  }

  /** The number of draws in `ds` that pass the filter. */
  function AcceptedCount(s: string, ds: seq<Draw>): nat
    requires AllFit(ds, |s|)
  {
    if ds == [] then 0
    else AcceptedCount(s, ds[..|ds| - 1]) + (if Accepts(s, ds[|ds| - 1]) then 1 else 0)
  }

  /** One record per accepted draw, so never more records than draws. */
  lemma {:induction false} AttemptsYield(pid: string, s: string, ds: seq<Draw>)
    requires AllFit(ds, |s|)
    ensures |Attempts(pid, s, ds)| == AcceptedCount(s, ds) <= |ds|
  {
    if ds != [] {
      AttemptsYield(pid, s, ds[..|ds| - 1]);
    }
  }

  /** No draw is counted exactly when every draw is rejected. */
  lemma {:induction false} AcceptedCountZero(s: string, ds: seq<Draw>)
    requires AllFit(ds, |s|)
    ensures AcceptedCount(s, ds) == 0 <==> forall k :: 0 <= k < |ds| ==> !Accepts(s, ds[k])
  {
    if ds != [] {
      var init := ds[..|ds| - 1];
      AcceptedCountZero(s, init);
      if AcceptedCount(s, ds) == 0 {
        forall k | 0 <= k < |ds|
          ensures !Accepts(s, ds[k])
        {
          if k < |init| {
            assert init[k] == ds[k];
          }
        }
      } else if !Accepts(s, ds[|ds| - 1]) {
        var j :| 0 <= j < |init| && Accepts(s, init[j]);
        assert ds[j] == init[j];
      }
    }
  }

  /** Rejected draws are dropped, not retried: nothing is kept exactly when
      every draw is rejected, however long the sequence is. */
  lemma AttemptsEmptyIff(pid: string, s: string, ds: seq<Draw>)
    requires AllFit(ds, |s|)
    ensures Attempts(pid, s, ds) == [] <==> forall k :: 0 <= k < |ds| ==> !Accepts(s, ds[k])
  {
    AttemptsYield(pid, s, ds);
    AcceptedCountZero(s, ds);
  }

  /** Every kept record belongs to this protein and passes the filter. */
  lemma {:induction false} AttemptsRecords(pid: string, s: string, ds: seq<Draw>)
    requires AllFit(ds, |s|)
    ensures forall j :: 0 <= j < |Attempts(pid, s, ds)| ==> RecordOf(Attempts(pid, s, ds)[j], pid, s)
  {
    if ds != [] {
      AttemptsRecords(pid, s, ds[..|ds| - 1]);
      if Accepts(s, ds[|ds| - 1]) {
        AttemptRecord(pid, s, ds[|ds| - 1]);
      }
    }
  }

  /** The records of the first `k` draws are a prefix of the records of all
      draws: later draws only append. */
  lemma {:induction false} AttemptsPrefix(pid: string, s: string, ds: seq<Draw>, k: nat)
    requires AllFit(ds, |s|) && k <= |ds|
    ensures Attempts(pid, s, ds[..k]) <= Attempts(pid, s, ds)
  {
    if k < |ds| {
      var init := ds[..|ds| - 1];
      assert init[..k] == ds[..k];
      AttemptsPrefix(pid, s, init, k);
    } else {
      assert ds[..k] == ds;
    }
  }

  /** The draws of one protein fit its upper-cased sequence (a skipped
      protein uses none of them). */
  predicate BlockFits(p: Protein, block: seq<Draw>) {
    IsShort(p) || AllFit(block, |Upper(p.fastaSequence)|)
  }

  /** The records one protein contributes, given the draws it consumes. */
  function ProteinRecords(p: Protein, block: seq<Draw>): seq<FeatureRecord>
    requires BlockFits(p, block)
  {
    var s := Upper(p.fastaSequence);
    if |s| < MinSequenceLength then [] else Attempts(p.uniprotId, s, block)
  }

  /** A skipped protein contributes nothing, whatever draws it is offered. */
  lemma ShortProteinYieldsNothing(p: Protein, block: seq<Draw>)
    requires IsShort(p)
    ensures ProteinRecords(p, block) == []
  {
  }

  /** A protein yields at most one record per attempt, and each one carries
      its id and passes the filter on its upper-cased sequence. */
  lemma ProteinYield(p: Protein, block: seq<Draw>)
    requires BlockFits(p, block)
    ensures |ProteinRecords(p, block)| <= |block|
    ensures forall j :: 0 <= j < |ProteinRecords(p, block)| ==>
      RecordOf(ProteinRecords(p, block)[j], p.uniprotId, Upper(p.fastaSequence))
  {
    if !IsShort(p) {
      AttemptsYield(p.uniprotId, Upper(p.fastaSequence), block);
      AttemptsRecords(p.uniprotId, Upper(p.fastaSequence), block);
    }
  }

  // ---------------------------------------------------------------------
  // The whole table

  /** The draws consumed by the proteins `ps`, in order. */
  function DrawsUsed(ps: seq<Protein>): nat {
    if ps == [] then 0 else DrawsUsed(ps[..|ps| - 1]) + DrawsFor(ps[|ps| - 1])
  }

  /** The stream holds enough draws for `ps`, and each protein's draws fit it. */
  predicate DrawsFit(ps: seq<Protein>, draws: seq<Draw>) {
    && DrawsUsed(ps) <= |draws|
    && (ps != [] ==>
         && DrawsFit(ps[..|ps| - 1], draws)
         && BlockFits(ps[|ps| - 1], draws[DrawsUsed(ps[..|ps| - 1])..DrawsUsed(ps)]))
  }

  /** The feature table: each protein's records after those of the proteins
      before it, each protein reading its draws after theirs. */
  function BuildTable(ps: seq<Protein>, draws: seq<Draw>): seq<FeatureRecord>
    requires DrawsFit(ps, draws)
  {
    if ps == [] then []
    else
      var init := ps[..|ps| - 1];
      BuildTable(init, draws) + ProteinRecords(ps[|ps| - 1], draws[DrawsUsed(init)..DrawsUsed(ps)])
  }

  /** A draw stream that serves a list of proteins serves each prefix of it. */
  lemma {:induction false} DrawsFitPrefix(ps: seq<Protein>, draws: seq<Draw>, i: nat)
    requires DrawsFit(ps, draws) && i <= |ps|
    ensures DrawsFit(ps[..i], draws)
  {
    if i < |ps| {
      var init := ps[..|ps| - 1];
      assert init[..i] == ps[..i];
      DrawsFitPrefix(init, draws, i);
    } else {
      assert ps[..i] == ps;
    }
  }

  /** Appending a protein too short to sample consumes no draws and adds no
      records. */
  lemma ShortProteinAddsNothing(ps: seq<Protein>, p: Protein, draws: seq<Draw>)
    requires DrawsFit(ps, draws) && IsShort(p)
    ensures DrawsUsed(ps + [p]) == DrawsUsed(ps)
    ensures DrawsFit(ps + [p], draws)
    ensures BuildTable(ps + [p], draws) == BuildTable(ps, draws)
  {
    assert (ps + [p])[..|ps|] == ps;
  }

  /** The table holds at most one record per draw consumed, so at most 100
      per protein. */
  lemma {:induction false} TableYield(ps: seq<Protein>, draws: seq<Draw>)
    requires DrawsFit(ps, draws)
    ensures |BuildTable(ps, draws)| <= DrawsUsed(ps) <= AttemptsPerProtein * |ps|
  {
    if ps != [] {
      var init := ps[..|ps| - 1];
      TableYield(init, draws);
      ProteinYield(ps[|ps| - 1], draws[DrawsUsed(init)..DrawsUsed(ps)]);
    }
  }

  /** `r` is a valid record of one of the proteins `ps`. */
  ghost predicate FromInput(r: FeatureRecord, ps: seq<Protein>) {
    exists i :: 0 <= i < |ps| && RecordOf(r, ps[i].uniprotId, Upper(ps[i].fastaSequence))
  }

  /** Every record of the table carries the id of an input protein and is a
      valid substitution on that protein's upper-cased sequence. */
  lemma {:induction false} TableRecords(ps: seq<Protein>, draws: seq<Draw>)
    requires DrawsFit(ps, draws)
    ensures forall j :: 0 <= j < |BuildTable(ps, draws)| ==> FromInput(BuildTable(ps, draws)[j], ps)
  {
    if ps != [] {
      var init := ps[..|ps| - 1];
      var last := ps[|ps| - 1];
      var block := draws[DrawsUsed(init)..DrawsUsed(ps)];
      TableRecords(init, draws);
      ProteinYield(last, block);
      var head := BuildTable(init, draws);
      var tail := ProteinRecords(last, block);
      var t := BuildTable(ps, draws);
      assert t == head + tail;
      forall j | 0 <= j < |t|
        ensures FromInput(t[j], ps)
      {
        if j < |head| {
          assert FromInput(head[j], init);
          var i :| 0 <= i < |init| && RecordOf(head[j], init[i].uniprotId, Upper(init[i].fastaSequence));
          assert t[j] == head[j] && ps[i] == init[i];
        } else {
          assert t[j] == tail[j - |head|];
          assert RecordOf(t[j], ps[|ps| - 1].uniprotId, Upper(ps[|ps| - 1].fastaSequence));
        }
      }
    }
  }

  /** Records come out in protein order: the table of the first `i` proteins
      is a prefix of the whole table, so later proteins never alter it. */
  lemma {:induction false} TablePrefix(ps: seq<Protein>, draws: seq<Draw>, i: nat)
    requires DrawsFit(ps, draws) && i <= |ps|
    ensures DrawsFit(ps[..i], draws)
    ensures BuildTable(ps[..i], draws) <= BuildTable(ps, draws)
  {
    DrawsFitPrefix(ps, draws, i);
    if i < |ps| {
      var init := ps[..|ps| - 1];
      assert init[..i] == ps[..i];
      TablePrefix(init, draws, i);
    } else {
      assert ps[..i] == ps;
    }
  }

  /** The table depends on each sequence only through its upper-cased form:
      two inputs with the same ids and the same upper-cased sequences consume
      the same draws and give the same table. */
  lemma {:induction false} TableCaseInsensitive(ps: seq<Protein>, qs: seq<Protein>, draws: seq<Draw>)
    requires |ps| == |qs|
    requires forall i :: 0 <= i < |ps| ==>
      ps[i].uniprotId == qs[i].uniprotId && Upper(ps[i].fastaSequence) == Upper(qs[i].fastaSequence)
    ensures DrawsUsed(ps) == DrawsUsed(qs)
    ensures DrawsFit(ps, draws) <==> DrawsFit(qs, draws)
    ensures DrawsFit(ps, draws) ==> BuildTable(ps, draws) == BuildTable(qs, draws)
  {
    if ps != [] {
      TableCaseInsensitive(ps[..|ps| - 1], qs[..|qs| - 1], draws);
    }
  }

  /** Extending the draws by one extends the kept records by that draw's. */
  lemma AttemptsStep(pid: string, s: string, ds: seq<Draw>, k: nat)
    requires AllFit(ds, |s|) && k < |ds|
    ensures AllFit(ds[..k], |s|) && AllFit(ds[..k + 1], |s|)
    ensures Attempts(pid, s, ds[..k + 1]) == Attempts(pid, s, ds[..k]) + Attempt(pid, s, ds[k])
  {
    assert ds[..k + 1][..k] == ds[..k];
  }

  /** On a protein long enough to sample, one more draw extends its records
      by what that draw's attempt appends. */
  lemma RecordsStep(p: Protein, draws: seq<Draw>, start: nat, next: nat, end: nat)
    requires start <= next < end <= |draws|
    requires !IsShort(p) && BlockFits(p, draws[start..end])
    ensures DrawFits(draws[next], |Upper(p.fastaSequence)|)
    ensures BlockFits(p, draws[start..next]) && BlockFits(p, draws[start..next + 1])
    ensures ProteinRecords(p, draws[start..next + 1]) ==
      ProteinRecords(p, draws[start..next]) + Attempt(p.uniprotId, Upper(p.fastaSequence), draws[next])
  {
    var all := draws[start..end];
    var k := next - start;
    assert draws[start..next + 1] == all[..k + 1] && draws[start..next] == all[..k];
    assert all[k] == draws[next];
    AttemptsStep(p.uniprotId, Upper(p.fastaSequence), all, k);
  }

  /** One attempt of the sampling loop in terms of what the loop computes:
      appending the record of an accepted draw (or nothing) to the records of
      the draws before it gives the records of one more draw. */
  lemma LoopStep(p: Protein, draws: seq<Draw>, start: nat, next: nat, end: nat,
                 before: seq<FeatureRecord>, results: seq<FeatureRecord>)
    requires start <= next < end <= |draws|
    requires !IsShort(p) && BlockFits(p, draws[start..end])
    requires BlockFits(p, draws[start..next])
    requires results == before + ProteinRecords(p, draws[start..next])
    ensures BlockFits(p, draws[start..next + 1])
    ensures var d, s := draws[next], Upper(p.fastaSequence);
      && d.pos < |s| && d.mutant in ValidAas
      && (if s[d.pos] in ValidAas && s[d.pos] != d.mutant
          then results + [MakeRecord(p.uniprotId, Substitution(s[d.pos], d.pos, d.mutant))]
          else results)
         == before + ProteinRecords(p, draws[start..next + 1])
  {
    RecordsStep(p, draws, start, next, end);
    var d, s := draws[next], Upper(p.fastaSequence);
    var done, step := ProteinRecords(p, draws[start..next]), Attempt(p.uniprotId, s, d);
    if s[d.pos] in ValidAas && s[d.pos] != d.mutant {
      assert (before + done) + step == before + (done + step);
    } else {
      assert done + step == done;
    }
  }

  /** Extending the proteins by one extends the table by that protein's
      records over the draws right after those of the earlier proteins. */
  lemma TableStep(ps: seq<Protein>, draws: seq<Draw>, i: nat)
    requires DrawsFit(ps, draws) && i < |ps|
    ensures DrawsFit(ps[..i], draws) && DrawsFit(ps[..i + 1], draws)
    ensures DrawsUsed(ps[..i + 1]) == DrawsUsed(ps[..i]) + DrawsFor(ps[i]) <= |draws|
    ensures BlockFits(ps[i], draws[DrawsUsed(ps[..i])..DrawsUsed(ps[..i + 1])])
    ensures BuildTable(ps[..i + 1], draws) ==
      BuildTable(ps[..i], draws) + ProteinRecords(ps[i], draws[DrawsUsed(ps[..i])..DrawsUsed(ps[..i + 1])])
  {
    DrawsFitPrefix(ps, draws, i + 1);
    assert ps[..i + 1][..i] == ps[..i];
  }

  // ---------------------------------------------------------------------
  // The sampling loop

  /** The body of the per-protein loop of `run_phase_2`: upper-case the
      sequence, then make 100 attempts; on a sequence long enough to sample,
      each attempt reads the next draw and appends a record to
      `mutationResults` when the draw passes the filter. */
  method SampleProtein(p: Protein, draws: seq<Draw>, start: nat, mutationResults: seq<FeatureRecord>)
    returns (results: seq<FeatureRecord>, next: nat)
    requires start + DrawsFor(p) <= |draws|
    requires BlockFits(p, draws[start..start + DrawsFor(p)])
    ensures next == start + DrawsFor(p)
    ensures results == mutationResults + ProteinRecords(p, draws[start..next])
  {
    var rawSeq := Upper(p.fastaSequence);
    var pid := p.uniprotId;
    results, next := mutationResults, start;
    for k := 0 to AttemptsPerProtein
      invariant next == start + (if IsShort(p) then 0 else k)
      invariant BlockFits(p, draws[start..next])
      invariant results == mutationResults + ProteinRecords(p, draws[start..next])
    {
      if |rawSeq| < MinSequenceLength {
        continue;
      }
      LoopStep(p, draws, start, next, start + DrawsFor(p), mutationResults, results);
      var d := draws[next];
      var wildAa := rawSeq[d.pos];
      if wildAa in ValidAas && wildAa != d.mutant {
        results := results + [MakeRecord(pid, Substitution(wildAa, d.pos, d.mutant))];
      }
      next := next + 1;
    }
  }

  /** The sampling loop of `run_phase_2`: each protein in input order
      appends its records to one list; an empty list is the "no mutations"
      outcome, a non-empty one is the table that is saved. */
  method RunPhase2(proteins: seq<Protein>, draws: seq<Draw>) returns (outcome: Outcome)
    requires DrawsFit(proteins, draws)
    ensures outcome.NoMutationsGenerated? <==> BuildTable(proteins, draws) == []
    ensures outcome.Saved? ==> outcome.features == BuildTable(proteins, draws)
  {
    var mutationResults: seq<FeatureRecord> := [];
    var next: nat := 0;  // the index of the next unread draw
    for i := 0 to |proteins|
      invariant DrawsFit(proteins[..i], draws)
      invariant next == DrawsUsed(proteins[..i])
      invariant mutationResults == BuildTable(proteins[..i], draws)
    {
      TableStep(proteins, draws, i);
      ghost var block := draws[next..DrawsUsed(proteins[..i + 1])];
      mutationResults, next := SampleProtein(proteins[i], draws, next, mutationResults);
      assert mutationResults == BuildTable(proteins[..i], draws) + ProteinRecords(proteins[i], block);
    }
    assert proteins[..|proteins|] == proteins;
    if mutationResults != [] {
      outcome := Saved(mutationResults);
    } else {
      outcome := NoMutationsGenerated;
    }
  }
}
