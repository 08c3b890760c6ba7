# DNA label splice and composition statistics

This project models the two computational parts of the FASTA sequence tool
`2025py_s27051/s27051_2025.py` and proves properties about them.

- **Generation** (`generate_sequence`). The sequence length must be positive.
  The user's label is rejected if it contains an uppercase A, T, G or C;
  lowercase letters are allowed on purpose. A base sequence is drawn from
  `dna_bases = ['A', 'C', 'G', 'T']`, and the label is spliced in at an
  offset between 0 and the length, both ends included.
- **Statistics** (`print_sequence_stats`). Every case-insensitive occurrence
  of the label is removed from the record, scanning leftmost first without
  overlaps. Then only the letters A, C, G and T, in either case, are kept and
  uppercased. The four bases are counted. With nothing left there are no
  statistics. Otherwise the shares of A, C, G and T, and the C+G share, are
  reported as percentages.

Modules:

- `Alphabet` (alphabet.dfy): the bases and the ASCII case mapping.
- `Wrappers` (wrappers.dfy): a `Result` type.
- `SequenceGenerator` (generator.dfy): the label check, the draws and the splice.
- `CompositionAnalyzer` (analyzer.dfy): removal, scrub, counts and percentages.
- `RecordRoundTrip` (roundtrip.dfy): what analysing a generated record
  with its own label recovers.
- `Scenarios` (scenarios.dfy): worked examples, including the one where
  the lowercase-label freedom makes the statistics drop drawn bases.

The code is pure string and number logic, so everything is a function or a
lemma. Randomness enters as parameters. `random.choices` becomes a sequence
of draws, each an index into `dna_bases`. `random.randint` becomes the
offset. The prompts that repeat until the input is acceptable become a
`Failure` result that names what was wrong.

The label check is case-sensitive by design (lines 40-49 explain the
change). A consequence is that a lowercase label such as "a" is accepted.
The case-insensitive removal then also deletes drawn bases. `RecordRoundTrip`
proves that the round trip is exact exactly when the label is empty or holds
at least one character that is not a nucleotide letter in either case, such
as the "n" of "anna". A non-empty label made only of nucleotide letters,
such as "a", breaks it for some drawn sequence.
`Scenarios.LowercaseLabelStripsBases` shows such a case. This is the behaviour the code intends, so it is not listed as a
defect.

## Model

| member | source | states |
|---|---|---|
| SequenceGenerator.HasForbiddenLetter | 2025py_s27051/s27051_2025.py:46 | `any(ch in "ATGC" ...)` is true exactly when some character of the label is an uppercase A, C, G or T |
| SequenceGenerator.LabelAccepted | 2025py_s27051/s27051_2025.py:46-49 | a label is accepted exactly when none of its characters is an uppercase A, T, G or C |
| SequenceGenerator.LabelCheckIsCaseSensitive | 2025py_s27051/s27051_2025.py:44-49 | lowercase labels such as "gattaca" and "bob" pass; "GATTACA" and "boT" are rejected |
| SequenceGenerator.DrawBases | 2025py_s27051/s27051_2025.py:63-64 | the drawn sequence has one character per draw, each is `dna_bases[draw]`, so all are A, C, G or T |
| SequenceGenerator.BaseIndex | 2025py_s27051/s27051_2025.py:63 | every base is `dna_bases[d]` for some index d in [0, 4) |
| SequenceGenerator.DrawsOf | 2025py_s27051/s27051_2025.py:63-64 | every base string has a valid list of draws of its own length |
| SequenceGenerator.DrawBasesOfDrawsOf | 2025py_s27051/s27051_2025.py:63-64 | every string over A, C, G, T can be drawn: drawing `DrawsOf(s)` gives back `s` |
| SequenceGenerator.Splice | 2025py_s27051/s27051_2025.py:67 | the result has length `len(dna) + len(name)`; it agrees with `dna` before `p`; the label sits at `[p, p + len(name))`; the rest of `dna` follows |
| SequenceGenerator.SpliceUndo | 2025py_s27051/s27051_2025.py:67 | cutting the label window out of a spliced string gives back the base sequence |
| SequenceGenerator.SpliceAtEnds | 2025py_s27051/s27051_2025.py:66-67 | offset 0 puts the label first and offset `len(dna)` puts it last |
| SequenceGenerator.Generate | 2025py_s27051/s27051_2025.py:27-67 | fails exactly when the length is not positive or the label is rejected, naming which; otherwise the record has length `length + len(name)`, holds the label at the offset, and around it holds exactly the drawn bases |
| CompositionAnalyzer.RemoveName | 2025py_s27051/s27051_2025.py:82-83 | removal never lengthens the string, and an empty label removes nothing |
| CompositionAnalyzer.RemoveNameSubMultiset | 2025py_s27051/s27051_2025.py:82-83 | removal only deletes characters: the result is a sub-multiset of the input |
| CompositionAnalyzer.RemoveNameDrop | 2025py_s27051/s27051_2025.py:82-83 | unfolding step of `RemoveName` used by the examples: where a case-insensitive match starts, it is dropped and the scan resumes after it |
| CompositionAnalyzer.RemoveNameKeep | 2025py_s27051/s27051_2025.py:82-83 | unfolding step of `RemoveName` used by the examples: where no match starts, the first character is kept and the scan moves on by one |
| CompositionAnalyzer.NoMatchAt | 2025py_s27051/s27051_2025.py:82-83 | no match starts at a character that differs, ignoring case, from the label's first character |
| CompositionAnalyzer.RemoveNameKeepsFirst | 2025py_s27051/s27051_2025.py:82-83 | such a first character is kept in front of the removal of the rest |
| CompositionAnalyzer.RemoveNameKeepsPrefix | 2025py_s27051/s27051_2025.py:82-83 | a leading run of such characters passes through removal unchanged |
| CompositionAnalyzer.RemoveNameLeading | 2025py_s27051/s27051_2025.py:82-83 | a string that starts with the label loses that copy |
| CompositionAnalyzer.RemoveNameTrailing | 2025py_s27051/s27051_2025.py:82-83 | a label written after text that cannot start a match is removed and the text kept |
| CompositionAnalyzer.RemoveNameAbsent | 2025py_s27051/s27051_2025.py:82-83 | removal is the identity when the label occurs nowhere, ignoring case |
| CompositionAnalyzer.RemoveNamePresent | 2025py_s27051/s27051_2025.py:82-83 | when a non-empty label occurs ignoring case, removal deletes at least the length of one copy |
| CompositionAnalyzer.RemoveNameChanges | 2025py_s27051/s27051_2025.py:82-83 | removal of a non-empty label changes the string exactly when the label occurs in it, ignoring case |
| CompositionAnalyzer.MatchIgnoresCase | 2025py_s27051/s27051_2025.py:82 | a window matches a label exactly when it matches the label written in another case |
| CompositionAnalyzer.RemoveNameIgnoresCase | 2025py_s27051/s27051_2025.py:82-83 | removal gives the same result whatever case the label is given in |
| CompositionAnalyzer.UpperAll | 2025py_s27051/s27051_2025.py:84 | `.upper()` of the kept string has the same length, uppercases each character in place, and matches its input ignoring case |
| CompositionAnalyzer.KeepNucleotides | 2025py_s27051/s27051_2025.py:84 | the filter never lengthens the string and keeps only A, C, G, T in either case |
| CompositionAnalyzer.Scrub | 2025py_s27051/s27051_2025.py:84 | `sequence_cleaned` is no longer than its input and holds only uppercase A, C, G, T |
| CompositionAnalyzer.ScrubCons | 2025py_s27051/s27051_2025.py:84 | the scrub of a string is the uppercased first character, if it is kept, followed by the scrub of the rest |
| CompositionAnalyzer.UpperAllCons | 2025py_s27051/s27051_2025.py:84 | uppercasing a string uppercases its first character, then the rest |
| CompositionAnalyzer.KeepCounts | 2025py_s27051/s27051_2025.py:84 | the filter keeps every copy of a nucleotide letter and no copy of anything else |
| CompositionAnalyzer.UpperCounts | 2025py_s27051/s27051_2025.py:84 | after `.upper()` a base occurs as often as it and its lowercase form occurred before |
| CompositionAnalyzer.UpperMatchesBase | 2025py_s27051/s27051_2025.py:84 | a character uppercases to a base exactly when it is that base in either case |
| CompositionAnalyzer.ScrubCounts | 2025py_s27051/s27051_2025.py:84-89 | `sequence_cleaned.count(b)` equals the count of `b` plus the count of its lowercase form in the input |
| CompositionAnalyzer.ScrubOfBases | 2025py_s27051/s27051_2025.py:84 | a string of uppercase bases passes the scrub unchanged |
| CompositionAnalyzer.CountsBound | 2025py_s27051/s27051_2025.py:86-90 | the four counts add up to at most the length, and to exactly the length for a string of bases |
| CompositionAnalyzer.CountBases | 2025py_s27051/s27051_2025.py:86-90 | each of the four counts is the number of copies of its base in `sequence_cleaned`; `total == len(sequence_cleaned)`; `a + c + g + t <= total` and `c + g <= total`; on cleaned input the four counts add up to `total` |
| CompositionAnalyzer.Percent | 2025py_s27051/s27051_2025.py:97-100 | `(count / total) * 100` times `total` is `100 * count`; it lies in [0, 100] when `count <= total` |
| CompositionAnalyzer.PercentUnique | 2025py_s27051/s27051_2025.py:97-100 | the share is the only number that, times the total, gives 100 times the count |
| CompositionAnalyzer.PercentSum | 2025py_s27051/s27051_2025.py:97-101 | for counts that make up the total, the four shares add up to 100; the C+G share is the C share plus the G share and lies in [0, 100] |
| CompositionAnalyzer.Shares | 2025py_s27051/s27051_2025.py:97-101 | each share is its count's percentage of the total; the four shares add up to 100; the C+G share is the sum of the C and G shares and is at most 100 |
| CompositionAnalyzer.CountScrubbed | 2025py_s27051/s27051_2025.py:84-90 | the counts of the scrub of a string are each base's count in either case in that string, and the total is their sum |
| CompositionAnalyzer.Analyze | 2025py_s27051/s27051_2025.py:77-101 | there are no statistics exactly when nothing is counted after removal and scrubbing; otherwise each count is the base's count in either case in what removal left, the total is their sum, and the shares are those of `Shares` |
| Alphabet.ToUpper | 2025py_s27051/s27051_2025.py:84 | lowercase ASCII letters map to their uppercase forms; every other character is unchanged |
| Alphabet.ToLower | 2025py_s27051/s27051_2025.py:82 | uppercase ASCII letters map to their lowercase forms; every other character is unchanged |
| Alphabet.IsNucleotideLetter | 2025py_s27051/s27051_2025.py:84 | the test `ch.upper() in 'ACGT'`: the uppercase form of the character is one of the four bases |
| Alphabet.SameLetter | 2025py_s27051/s27051_2025.py:82 | the character equality of `re.IGNORECASE`: two characters are equal once lowercased |
| Alphabet.NucleotideLetters | 2025py_s27051/s27051_2025.py:84 | `ch.upper() in 'ACGT'` holds exactly for the eight letters A, C, G, T, a, c, g, t |
| Alphabet.SameLetterKeepsNucleotide | 2025py_s27051/s27051_2025.py:82-84 | a character that matches a nucleotide letter ignoring case is itself a nucleotide letter |
| Alphabet.UpperSameLetter | 2025py_s27051/s27051_2025.py:82-84 | a character matches its own uppercase form ignoring case |
| Alphabet.SameIgnoringCaseReflexive | 2025py_s27051/s27051_2025.py:82 | every string matches itself ignoring case |
| RecordRoundTrip.FindOffAlphabet | 2025py_s27051/s27051_2025.py:82-84 | a label holding a character that is not a nucleotide letter has a first such position |
| RecordRoundTrip.BasesHoldNoLabel | 2025py_s27051/s27051_2025.py:82-83 | a label with a non-nucleotide character does not occur, ignoring case, in a string of bases |
| RecordRoundTrip.NoMatchBeforeLabel | 2025py_s27051/s27051_2025.py:82-83 | no match of such a label starts on a base in front of the label |
| RecordRoundTrip.BaseBeforeLabelKept | 2025py_s27051/s27051_2025.py:82-83 | a base in front of such a label is kept and the scan moves on by one |
| RecordRoundTrip.RemoveNameBeforeLabel | 2025py_s27051/s27051_2025.py:82-83 | the bases in front of such a label pass through removal unchanged |
| RecordRoundTrip.RemoveSplicedName | 2025py_s27051/s27051_2025.py:67-83 | if the label is empty or holds a character that is not a nucleotide letter, removing it from the spliced record gives back exactly the drawn bases |
| RecordRoundTrip.RemoveSplicedNameFails | 2025py_s27051/s27051_2025.py:67-83 | conversely, a non-empty label made only of nucleotide letters, spliced at the end of its own uppercase form, removes drawn bases: the round trip fails |
| RecordRoundTrip.AnalyzeLeavesBases | 2025py_s27051/s27051_2025.py:82-90 | when removal leaves a non-empty string of bases, those bases are counted exactly, over its full length |
| RecordRoundTrip.AnalyzeGenerated | 2025py_s27051/s27051_2025.py:62-90 | for an accepted label that is empty or holds a character that is not a nucleotide letter, the statistics printed after generation (line 74) count exactly the drawn bases, with total equal to the sequence length |
| RecordRoundTrip.AnalyzeBases | 2025py_s27051/s27051_2025.py:84-90 | an unlabelled non-empty string of bases is counted exactly, with total equal to its length |
| Scenarios.MixedCaseScenario | 2025py_s27051/s27051_2025.py:82-101 | "AcGtXname" with label "name" counts one of each base out of 4: 25% each and 50% C+G |
| Scenarios.NameAfter | 2025py_s27051/s27051_2025.py:82-83 | "name" written after text holding no n in either case is removed and the text kept |
| Scenarios.FixtureCounts | 2025py_s27051/s27051_2025.py:84-89 | "ACGTacgtXXX" holds two of each base in either case |
| Scenarios.LetterCountAppend | 2025py_s27051/s27051_2025.py:86-89 | counting a base in either case adds up over a concatenation |
| Scenarios.QuarterShare | 2025py_s27051/s27051_2025.py:97-100 | n of 4n is 25% |
| Scenarios.EqualShares | 2025py_s27051/s27051_2025.py:86-101 | n > 0 of each base, in either case, left after removal give total 4n, 25% per base and 50% C+G |
| Scenarios.FixtureScenario | 2025py_s27051/s27051_2025.py:82-101 | "ACGTacgtXXXname" with label "name" counts two of each base out of 8: 25% each and 50% C+G |
| Scenarios.AnalyzeEmpty | 2025py_s27051/s27051_2025.py:92-94 | an empty record has no statistics, whatever the label |
| Scenarios.AnalyzeOnlyLabel | 2025py_s27051/s27051_2025.py:82-94 | a record that is only its label has no statistics |
| Scenarios.LowercaseLabelGenerated | 2025py_s27051/s27051_2025.py:46-67 | the label "a" is accepted, and drawing A then C with the label at offset 0 gives "aAC" |
| Scenarios.LowercaseLabelRemoval | 2025py_s27051/s27051_2025.py:82-83 | removing "a" from "aAC" ignoring case also deletes the drawn A, leaving "C" |
| Scenarios.LowercaseLabelStripsBases | 2025py_s27051/s27051_2025.py:82-90 | the statistics of "aAC" with label "a" count one base of the two drawn |
| Scenarios.UppercaseLabel | 2025py_s27051/s27051_2025.py:82 | "name" and "NAME" are the same label ignoring case |
| Scenarios.UppercaseLabelRemoval | 2025py_s27051/s27051_2025.py:82-83 | the same removal with the strings passed as parameters |
| Scenarios.UppercaseLabelScenario | 2025py_s27051/s27051_2025.py:82-83 | removing "NAME" from "AACGTname" leaves "AACGT" |
| Scenarios.WrongLabelRemoval | 2025py_s27051/s27051_2025.py:82-83 | "tug" does not occur in "ACtag", so nothing is removed |
| Scenarios.WrongLabelScenario | 2025py_s27051/s27051_2025.py:82-90 | "ACtag" with label "tug" counts its t, a and g beside the drawn A and C: counts (2, 1, 1, 1) out of 5 |
| Scenarios.LowercaseLabelRoundTrip | 2025py_s27051/s27051_2025.py:46-83 | the lowercase label "anna" passes the check, and removing it from "ACGT" spliced at offset 1 gives back "ACGT" |

## Left out

- Console input and the re-prompting loops (lines 27-38, 44-45). `Generate` takes the length and label as arguments and returns a `Failure` where the program would ask again. The parse of the length (`int(...)` and its `ValueError`) is not modelled: the length arrives as an integer.
- The sequence ID, the description, the timestamped file name and the FASTA file writing (lines 37-38, 55-56, 69-73). They are I/O and depend on the clock.
- `random.seed(42)`, `random.choices` and `random.randint` (lines 62-66). The draws and the offset are parameters, constrained as those library calls guarantee. The particular values the Mersenne Twister yields for seed 42 are not modelled.
- The file reading, deletion and main menu (lines 110 onwards): they are file-system and UI plumbing.
- Percent (`CompositionAnalyzer.Percent`): the share is an exact rational. The source rounds each share to one decimal place with floating point, so its printed shares need not add up to exactly 100.
- Analyze (`CompositionAnalyzer.Analyze`): returns the counts and shares instead of printing them, and leaves out the print layout (lines 103-108).
- RemoveName (`CompositionAnalyzer.RemoveName`): matches ignoring case only for ASCII letters. Python's `re.IGNORECASE` also folds some other characters, such as the Kelvin sign with `k`.
- RemoveName (`CompositionAnalyzer.RemoveName`): the contract bounds the length of the result. `RemoveNamePresent` shows that at least one whole copy goes when the label occurs, but no lemma states that everything removed comes in whole copies.
