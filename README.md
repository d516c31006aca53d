# ProtStable phase 2: mutation feature synthesis

This project models the feature-engineering phase of the protein stability
pipeline in Dafny. The phase reads every protein of the raw sequence table
and upper-cases its sequence. For each protein whose upper-cased sequence
text is at least 10 characters long (the stored text is counted as it is,
so a FASTA header and line breaks count too) it makes 100 random draw attempts of a (position, mutant letter) pair.
A draw is kept when the wild-type letter at that position is one of the 20
recognised residues and differs from the mutant. Each kept draw becomes a
feature record:

- the protein's accession id;
- the label `<wild><position><mutant>`, with a 0-based decimal position;
- the three signed deltas (mutant minus wild) of hydrophobicity, molecular
  weight and isoelectric point, taken from the constant residue table.

The records of all proteins make up the feature table, and the run saves it.
When no record was kept, the run ends in the "no mutations generated" case
instead.

Modules:

- `Wrappers`: the `Option` datatype.
- `Residues`: the residue property table `AaProps`, the alphabet
  `ValidAas` and the delta of a substitution.
- `Labels`: decimal rendering of a position, the mutation label, and the
  parse that recovers a substitution from its label.
- `Synthesis`:
  - the specification functions `Attempt`, `Attempts`, `ProteinRecords` and
    `BuildTable`, with the lemmas about them;
  - the loop of the source as the methods `SampleProtein` and `RunPhase2`,
    each proved equal to those functions.

The random number generator becomes an explicit input: a stream of draws
`Draw(pos, mutant)`, read in order. Each draw is the pair that
`np.random.randint(0, len)` and `np.random.choice(list(valid_aas))` return
for one attempt. A protein too short to sample reads no draws, because the
length test comes before the draws. The precondition `DrawsFit` states the
ranges of those two calls: each position lies below the length of the
protein's upper-cased sequence, and each mutant letter is a table letter.

Property values are exact reals, so a delta is exactly the difference of
two table entries.

The code does not guarantee that a protein of length 10 or more yields a
record: all 100 draws may be rejected, and rejected draws are not retried. The model
follows the code. `Synthesis.AttemptsEmptyIff` states exactly when a
protein yields nothing.

The delta computation has no check for an unknown residue letter: the
filter on line 53
already keeps the wild letter inside the table, and the mutant is drawn
from the table. The model therefore states the table membership as a
precondition of `Residues.Delta`, and every caller meets it.

## Model

| member | source | states |
|---|---|---|
| Residues.CanonicalAlphabet | scripts/phase2_feature_engineering.py:7-18 | the residue table has exactly the 20 canonical one-letter codes as keys |
| Residues.AlphabetUpper | scripts/phase2_feature_engineering.py:7-18 | every key of the table is an upper-case ASCII letter |
| Residues.PositiveWeightAndPi | scripts/phase2_feature_engineering.py:7-18 | every residue has a positive molecular weight and a positive isoelectric point |
| Residues.DistinctIsoelectricPoints | scripts/phase2_feature_engineering.py:7-18 | two table letters differ if and only if their isoelectric points differ |
| Residues.Delta | scripts/phase2_feature_engineering.py:55-57 | each delta plus the wild residue's value equals the mutant residue's value, for hydrophobicity, weight and isoelectric point |
| Residues.DeltaAntisymmetric | scripts/phase2_feature_engineering.py:55-57 | swapping wild and mutant negates all three deltas |
| Residues.DeltaZeroIff | scripts/phase2_feature_engineering.py:53-57 | the delta vector is zero exactly when wild equals mutant, so every kept substitution changes the isoelectric point |
| Labels.NatToString | scripts/phase2_feature_engineering.py:61 | the rendered position is a canonical decimal numeral: at least one digit and no leading zero |
| Labels.DecimalRoundTrip | scripts/phase2_feature_engineering.py:61 | reading back the decimal rendering of a position gives the position |
| Labels.DecimalCanonical | scripts/phase2_feature_engineering.py:61 | every canonical numeral is the rendering of its own value |
| Labels.Label | scripts/phase2_feature_engineering.py:61 | the label starts with the wild letter, ends with the mutant letter and has a canonical numeral between them; its first and last characters differ when wild differs from mutant |
| Labels.LabelRoundTrip | scripts/phase2_feature_engineering.py:61 | parsing the label of a substitution whose letters are not digits gives back that substitution |
| Labels.ParseLabelCanonical | scripts/phase2_feature_engineering.py:61 | every string the parser accepts is the label of the substitution it parses to |
| Synthesis.UpperChar | scripts/phase2_feature_engineering.py:41 | a lower-case ASCII letter becomes the upper-case letter 32 code points below it, an upper-cased character is never a lower-case ASCII letter, and any other character is left unchanged |
| Synthesis.Upper | scripts/phase2_feature_engineering.py:41 | upper-casing keeps the length and maps each character through UpperChar |
| Synthesis.UpperIdempotent | scripts/phase2_feature_engineering.py:41 | upper-casing twice is the same as upper-casing once |
| Synthesis.UpperCharRecognised | scripts/phase2_feature_engineering.py:41-53 | a character passes the residue filter after upper-casing exactly when it is a table letter or the lower-case form of one |
| Synthesis.IsShort | scripts/phase2_feature_engineering.py:47 | definition: the upper-cased sequence text has fewer than 10 characters; properties in ShortProteinYieldsNothing and ShortProteinAddsNothing |
| Synthesis.DrawsFor | scripts/phase2_feature_engineering.py:46-51 | definition: a skipped protein reads no draws, any other reads 100; properties in SampleProtein and TableYield |
| Synthesis.Accepts | scripts/phase2_feature_engineering.py:53 | definition: the wild letter is in the table and differs from the mutant; properties in Attempt and AttemptsEmptyIff |
| Synthesis.MakeRecord | scripts/phase2_feature_engineering.py:55-65 | definition: the record of the protein id, the label and the three deltas; properties in MakeRecordFaithful |
| Synthesis.MakeRecordFaithful | scripts/phase2_feature_engineering.py:55-65 | a record carries the protein's id, a label that parses back to its substitution, and the table deltas of that substitution |
| Synthesis.Attempt | scripts/phase2_feature_engineering.py:49-65 | one attempt appends at most one record, and appends one exactly when the wild letter is in the table and differs from the mutant |
| Synthesis.AttemptRecord | scripts/phase2_feature_engineering.py:49-65 | the record of an accepted draw names the drawn position, the letter at that position of the upper-cased sequence and the drawn mutant, and carries the deltas of that substitution |
| Synthesis.Attempts | scripts/phase2_feature_engineering.py:46-65 | definition: the records kept from a protein's draws, in draw order; properties in AttemptsYield, AttemptsEmptyIff, AttemptsRecords and AttemptsPrefix |
| Synthesis.AttemptsYield | scripts/phase2_feature_engineering.py:46-65 | a protein keeps one record per accepted draw, so never more records than draws |
| Synthesis.AcceptedCountZero | scripts/phase2_feature_engineering.py:53 | no draw is accepted exactly when every draw fails the filter |
| Synthesis.AttemptsEmptyIff | scripts/phase2_feature_engineering.py:46-65 | a protein yields no records exactly when every one of its draws is rejected; rejected draws are dropped, not retried |
| Synthesis.AttemptsRecords | scripts/phase2_feature_engineering.py:49-65 | every kept record has the protein's id, an in-range position holding its wild letter, recognised and distinct wild and mutant letters, and the table deltas |
| Synthesis.AttemptsPrefix | scripts/phase2_feature_engineering.py:46-65 | records come in draw order: the records of the first k draws are a prefix of the records of all draws |
| Synthesis.ProteinRecords | scripts/phase2_feature_engineering.py:41-65 | definition: nothing for a skipped protein, otherwise the records kept from its draws; properties in ProteinYield and SampleProtein |
| Synthesis.ShortProteinYieldsNothing | scripts/phase2_feature_engineering.py:47 | a protein whose upper-cased sequence is shorter than 10 contributes no records |
| Synthesis.ProteinYield | scripts/phase2_feature_engineering.py:46-65 | a protein contributes at most one record per attempt, each a valid record of that protein |
| Synthesis.ShortProteinAddsNothing | scripts/phase2_feature_engineering.py:46-47 | appending a short protein consumes no draws and leaves the table unchanged |
| Synthesis.DrawsFitPrefix | scripts/phase2_feature_engineering.py:40-51 | a draw stream that serves a list of proteins serves every prefix of it |
| Synthesis.BuildTable | scripts/phase2_feature_engineering.py:36-65 | definition: each protein's records after those of the proteins before it, each reading its draws after theirs; properties in TableYield, TableRecords, TablePrefix, TableCaseInsensitive and RunPhase2 |
| Synthesis.TableYield | scripts/phase2_feature_engineering.py:40-65 | the table has at most one record per draw consumed, and at most 100 draws are consumed per protein |
| Synthesis.TableRecords | scripts/phase2_feature_engineering.py:40-65 | every table record is a valid record of some input protein and carries that protein's id |
| Synthesis.TablePrefix | scripts/phase2_feature_engineering.py:40-65 | records come in protein order: the table of the first i proteins is a prefix of the whole table |
| Synthesis.TableCaseInsensitive | scripts/phase2_feature_engineering.py:41 | the table depends on each sequence only through its upper-cased form |
| Synthesis.SampleProtein | scripts/phase2_feature_engineering.py:41-65 | the 100-attempt loop consumes exactly the protein's draws and appends exactly that protein's records to the running list |
| Synthesis.RunPhase2 | scripts/phase2_feature_engineering.py:36-74 | the run saves exactly the table of all proteins in order, and ends with "no mutations generated" exactly when that table is empty |

## Left out

- Reading `raw_sequences` and writing `mutation_features` with SQLite, and the early return when the query fails (lines 21-34, 69-71, 76): these are database I/O. The proteins come in as a sequence, and the saved table is the `Saved` outcome.
- The progress and result messages (lines 24, 44, 72, 74): output only.
- `np.random`: replaced by the explicit draw stream. The model proves its properties for every stream whose draws lie in numpy's ranges, not for the generator's distribution.
- Floating-point rounding of the deltas: property values are exact reals.
- Synthesis.Upper: models `str.upper` for ASCII letters only. Unicode case mappings, including those that change the length (such as 'ß' to "SS"), are not modelled. This affects the residue filter: Python upper-cases 'ı' (U+0131) to 'I' and 'ſ' (U+017F) to 'S', both table letters, so such characters pass line 53 in the source but not in the model (Synthesis.UpperCharRecognised holds for the ASCII mapping only).
- Synthesis.Upper: `str()` of a missing sequence value (the text "None", or "NAN" after upper-casing) is not modelled. The sequence is taken as a string.
- The ordering of `list(valid_aas)`, which follows Python's set iteration order: it only affects which letter a given random number selects, and the draw stream gives the letter directly.
- The other phases of the pipeline, the plots and the database check script are not part of this model.
