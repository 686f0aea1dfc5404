# Sequence metrics of the BioBits dashboard

The dashboard reads one FASTA record and shows three metrics for its
sequence string: the length, the GC content as a percentage, and a
nucleotide-distribution table with the literal counts of `A`, `T`, `G`,
`C` and an `Other` entry for everything else. This project models that
metrics block as pure Dafny functions over `string` and proves what the
block promises about those numbers.

It is a single module, `SequenceMetrics` (`sequence_metrics.dfy`):

- `Count(s, c)` is `str.count` for a one-character argument: the number
  of positions holding exactly `c`. `CountOther(s)` counts the positions
  holding anything other than `A`, `T`, `G` or `C`. It is an independent
  reference for the table's `Other` entry.
- `GcContent(s)` is `100 * (count('G') + count('C')) / length` as an exact
  `real`. For an empty sequence it is `Err(DivisionByZero)`, the
  `ZeroDivisionError` that the division raises.
- `Distribution(s)` is the five-key table, a `map<string, int>` like the
  source's dictionary. `Other` is computed as the source does it: the
  length minus the four counts.
- `Analyze(s)` is the whole block in source order. The length comes first,
  then the GC division, then the table. An empty sequence therefore stops
  at the division and produces no metrics.

The sequence comes in as a string that has already been extracted from
the record. Parsing, decoding and display are not modelled (see below).

An empty sequence is not guarded: the division on line 28 raises
`ZeroDivisionError` before the table on lines 29-35 is built, so `Analyze`
returns `Err(DivisionByZero)` for the whole block. The script reads exactly
one record (`SeqIO.read`) and computes no aggregates over several records
and no search.

## Model

| member | source | states |
|---|---|---|
| SequenceMetrics.KeyOf | bioinformatics_dashboard.py:29-34 | names the table entry a character is counted under: its own key for upper-case A, T, G, C, and "Other" for every other character |
| SequenceMetrics.Count | bioinformatics_dashboard.py:30-33 | the literal count of one character never exceeds the sequence length |
| SequenceMetrics.CountZero | bioinformatics_dashboard.py:30-33 | a character's count is 0 exactly when the character does not occur in the sequence |
| SequenceMetrics.CountIsMultiplicity | bioinformatics_dashboard.py:30-33 | the count of a character equals its multiplicity in the multiset of the sequence's characters |
| SequenceMetrics.CountAppend | bioinformatics_dashboard.py:30-33 | counting distributes over concatenation |
| SequenceMetrics.CountOther | bioinformatics_dashboard.py:34 | the number of non-ACGT characters never exceeds the length |
| SequenceMetrics.CountOtherZero | bioinformatics_dashboard.py:34 | nothing is non-ACGT exactly when every character is one of A, T, G, C |
| SequenceMetrics.CountOtherAppend | bioinformatics_dashboard.py:34 | the non-ACGT count distributes over concatenation |
| SequenceMetrics.Partition | bioinformatics_dashboard.py:30-34 | count(A) + count(T) + count(G) + count(C) + the number of other characters equals the length |
| SequenceMetrics.NucleotideCountsBounded | bioinformatics_dashboard.py:34 | A+T+G+C never exceeds the length, because the four count disjoint characters |
| SequenceMetrics.GcCountFull | bioinformatics_dashboard.py:28 | G+C never exceeds the length, and equals it exactly when every character is G or C |
| SequenceMetrics.GcCountEmpty | bioinformatics_dashboard.py:28 | G+C is 0 exactly when no character is G or C |
| SequenceMetrics.GcContent | bioinformatics_dashboard.py:28 | an empty sequence is the division-by-zero error; otherwise the percentage times the length is 100·(G+C), and it lies in [0, 100] |
| SequenceMetrics.Percentage | bioinformatics_dashboard.py:28 | 100·part/whole for 0 ≤ part ≤ whole lies in [0, 100]; it is 100 exactly when part = whole and 0 exactly when part = 0 |
| SequenceMetrics.GcContentFull | bioinformatics_dashboard.py:28 | for a non-empty sequence, GC content is 100 exactly when every character is G or C |
| SequenceMetrics.GcContentNone | bioinformatics_dashboard.py:28 | for a non-empty sequence, GC content is 0 exactly when no character is G or C |
| SequenceMetrics.Distribution | bioinformatics_dashboard.py:29-35 | the table has exactly the keys A, T, G, C, Other; every entry is between 0 and the length; the five entries sum to the length; Other equals the number of non-ACGT characters, so it is never negative |
| SequenceMetrics.DistributionEntries | bioinformatics_dashboard.py:30-33 | the A, T, G and C entries are the literal counts, that is, the multiplicities of those characters in the sequence |
| SequenceMetrics.AppendCounts | bioinformatics_dashboard.py:30-34 | appending one character raises exactly its own tally by one (Other for any non-ACGT character) and leaves the others unchanged |
| SequenceMetrics.AppendCharacter | bioinformatics_dashboard.py:29-35 | appending one character raises exactly the table entry it belongs to by one; case-sensitive, so a lower-case base raises only Other |
| SequenceMetrics.NoNucleotidesAllOther | bioinformatics_dashboard.py:29-35 | a sequence with no upper-case A, T, G or C has 0 in the four base entries and its whole length under Other |
| SequenceMetrics.Analyze | bioinformatics_dashboard.py:27-35 | the block fails with the division-by-zero error exactly when the sequence is empty; otherwise the length is the number of characters, and GC content and the table come from the same sequence, with the table summing to the length |
| SequenceMetrics.CompositionDetermines | bioinformatics_dashboard.py:27-35 | two sequences with the same multiset of characters get identical metrics: the block depends only on composition, not on order |
| SequenceMetrics.OtherIsComposition | bioinformatics_dashboard.py:34 | the Other entry depends only on the multiset of characters |
| SequenceMetrics.ExampleBalanced | bioinformatics_dashboard.py:27-35 | `ATGC` gives length 4, GC content 50 and one of each base with Other 0 |
| SequenceMetrics.ExampleLowerCase | bioinformatics_dashboard.py:27-35 | lower-case `gattaca` gives length 7, GC content 0 and all seven characters under Other |

## Left out

- FASTA handling: `SeqIO.read`, including its check that there is exactly one record. It is a library whose source is not part of this model. The model takes the extracted sequence string as its input.
- Reading the upload and decoding it as UTF-8, and the `StringIO` wrapper: these are I/O.
- Everything Streamlit draws: the title, the text, the file uploader, the 500-character preview, the record id, the "show full sequence" checkbox and the footer. These are presentation.
- The display order of the table's keys: the dictionary keeps A, T, G, C, Other in insertion order for `st.write`, while a Dafny map has no order.
- Floating point: GC content is an exact `real`, not an IEEE double, and the `:.2f` rounding for display is not modelled.
- Python strings are sequences of Unicode code points, modelled as Dafny `char`s. No normalisation or case folding happens in either.
