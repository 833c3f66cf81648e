# Consensus and motif-selection helpers, modelled in Dafny

This project models two helper scripts of a protein-design repository.

helper_scripts/calculate_consensus.py does three things for each `.fa` file of a folder:

- It sorts the file's FASTA records by the ` score=` value in their headers. It writes the best `top` percent to `sorted_<name>` (`sort_fasta_by_score`).
- It reads that file back and builds a column-wise majority consensus of its sequences (`process_fasta_file`).
- It formats the consensus as a `>A` record. A binder sequence is appended when one is given, with each `Z` in it turned into a line break.

helper_scripts/rmsd.py selects atom coordinates from parsed structures:

- the backbone atoms of whole chains, for the superposition in `align`;
- the listed residues of one chain, in `get_residue_coords`.

It also checks that paired coordinate lists have equal lengths, in `align` and `rmsd_no_align`.

Files are given to the model as the sequence of lines that Python's file iteration yields, each line keeping its `\n`. A written file is given as the text handed to `write`. A parsed structure is the sequence of its chains. A chain is an id and its residues. A residue is its number (`id[1]`) and its atoms. An atom is a name and a coordinate of an unspecified type.

Modules:

- `Wrappers`: `Option` and `Result`. An `Err` stands for a Python exception.
- `PyStr`: the `str` operations the scripts use:
  - `rstrip` and `strip`, with Python's whitespace set;
  - `startswith(">")`;
  - line splitting;
  - `replace("Z", "\n")`.
- `FastaLines`: a file cut at its header lines into headers and the segments between them. Both readers are characterised through this cut.
- `ScoreSort`: `sort_fasta_by_score`. It contains:
  - the reading loop, as a method proved equal to a fold of its body;
  - `get_score`, as a leftmost greedy regex match read as an exact decimal;
  - the sort, as a stable insertion sort in place on an array;
  - the truncation, with Python's truncating `int()` and negative slice bounds;
  - the writing loop.
- `Consensus`: `process_fasta_file`. This is the reading loop and the consensus loop. Ties between equally common characters are left open, because the source breaks them by set iteration order.
- `Pipeline`: `main`'s per-file step. It includes the record it formats, and the round trip from the sorted file written by one function to the reader of the other.
- `Rmsd`: the selections and guards of rmsd.py. It also includes `main`'s composition of them, with the superposition's transform as a parameter.

## Behaviour worth knowing

- `get_residue_coords` raises the same ValueError for a chain id no chain has and for a selection with no atom in it (rmsd.py:61-69).
- `align` does not report a chain id that no chain has. Its coordinate list is then never assigned, and the first use raises UnboundLocalError (rmsd.py:36-46).
- Both functions use the first chain with the requested id and never look at later chains with the same id.
- The ValueError for unequal atom counts does not name the two lengths (rmsd.py:45-46, 78-79).
- Neither script checks for degenerate input such as empty structures. The model adds no such check.
- `sort_fasta_by_score` keeps a percentage of the entries, not a count. Its docstring (calculate_consensus.py:6) and the comment at line 39 speak of the lowest `num_records` entries. Line 41 computes `int(num_records) * len(entries) / 100`, as the `--top` help text "Best x %" says. The model follows line 41.

## Model

| member | source | states |
|---|---|---|
| PyStr.IsSpace | helper_scripts/calculate_consensus.py:13 | the characters `str.isspace()` accepts, which `rstrip()` here and `strip()` at line 58 remove: the ASCII controls `\t` to `\r` and `\x1c` to `\x1f`, the blank, and the Unicode spaces and separators (U+0085, U+00A0, U+1680, U+2000 to U+200A, U+2028, U+2029, U+202F, U+205F, U+3000) |
| PyStr.IsHeader | helper_scripts/calculate_consensus.py:15 | `line.startswith(">")`, the header test of both readers (also line 53): the line is non-empty and its first character is `>` |
| PyStr.RStrip | helper_scripts/calculate_consensus.py:13 | `line.rstrip()` is a prefix of the line, followed only by whitespace, and does not itself end in whitespace |
| PyStr.LStrip | helper_scripts/calculate_consensus.py:58 | the leading-whitespace half of `strip()`: a suffix of the string, with only whitespace cut off before it, and not starting with whitespace |
| PyStr.Strip | helper_scripts/calculate_consensus.py:58 | `line.strip()` neither starts nor ends with whitespace |
| PyStr.StripSlice | helper_scripts/calculate_consensus.py:58 | `line.strip()` is a slice of the line, and everything cut off before and after it is whitespace. With Strip's contract this fixes the result |
| PyStr.RStripKeepsHeader | helper_scripts/calculate_consensus.py:13-15 | rstripping a line never changes whether it starts with `>` |
| PyStr.RStripNoNewline | helper_scripts/calculate_consensus.py:12-13 | a line read from a file has no line break left after `rstrip()` |
| PyStr.StripNewline | helper_scripts/calculate_consensus.py:58 | `strip()` removes a trailing `\n` along with other whitespace |
| PyStr.SplitLines | helper_scripts/calculate_consensus.py:52 | the lines a file yields, written one after the other, give back its whole text |
| PyStr.SplitLinesShape | helper_scripts/calculate_consensus.py:52 | every line is non-empty, holds `\n` only as its last character, and every line but the last ends with `\n` |
| PyStr.LineLength | helper_scripts/calculate_consensus.py:52 | the first line a file yields runs up to and including the first `\n`, or to the end of the text |
| PyStr.SplitLinesCons | helper_scripts/calculate_consensus.py:52 | text with a `\n` after a break-free prefix yields that prefix with its `\n` as its first line, then the lines of the rest |
| PyStr.ReplaceZ | helper_scripts/calculate_consensus.py:93 | `replace("Z", "\n")` keeps the length and turns exactly the `Z` characters into `\n` |
| PyStr.ReplaceZNewlines | helper_scripts/calculate_consensus.py:93 | after the replacement, the line breaks are the former `Z`s plus the line breaks already there |
| FastaLines.Cut | helper_scripts/calculate_consensus.py:12-22 | a file cuts into its header lines and one more segment of non-header lines than there are headers |
| FastaLines.CutRebuilds | helper_scripts/calculate_consensus.py:12-22 | the cut loses and reorders nothing: leading segment, then each header and its segment, gives back the file |
| FastaLines.SegmentsHaveNoHeader | helper_scripts/calculate_consensus.py:15-22 | no segment line starts with `>` |
| FastaLines.LeadingSegmentEmpty | helper_scripts/calculate_consensus.py:11-22 | nothing precedes the first header exactly when the file is empty or starts with a header line |
| FastaLines.CutMembers | helper_scripts/calculate_consensus.py:12 | every header and every segment line of the cut is a line of the file |
| ScoreSort.Step | helper_scripts/calculate_consensus.py:13-22 | one pass of the loop body. The line is rstripped. A header pushes the open entry, if there is one, and opens `{header: line[1:], sequence: ""}`. Any other line with no entry open is the TypeError of line 22, after which nothing changes. Otherwise the line is appended to the open entry's sequence |
| ScoreSort.Scan | helper_scripts/calculate_consensus.py:12-22 | the reader's state after the loop: the body applied to the file's lines in order, from no entries and `current_entry` None |
| ScoreSort.ParseEntries | helper_scripts/calculate_consensus.py:8-22 | what the reading part leaves in `entries`: the pushed entries, without the entry still open, or the TypeError |
| ScoreSort.ReadScoredEntries | helper_scripts/calculate_consensus.py:8-22 | the reading loop computes what the left fold of its body computes |
| ScoreSort.CrashPersists | helper_scripts/calculate_consensus.py:20-22 | once a sequence line comes with no entry open, the reader has raised, whatever lines follow |
| ScoreSort.Records | helper_scripts/calculate_consensus.py:17-22 | the first m records are the records opened by the first m header lines, in file order |
| ScoreSort.ScanShape | helper_scripts/calculate_consensus.py:12-22 | after any prefix of the file, the reader has failed when a line precedes the first header. Otherwise it has pushed every record but the last header's and holds the last one open |
| ScoreSort.ParseEntriesFails | helper_scripts/calculate_consensus.py:11-22 | the reader raises exactly when the file's first line is not a header, an empty first line included |
| ScoreSort.ParseEntriesRecords | helper_scripts/calculate_consensus.py:12-22 | otherwise `entries` holds one entry per header line except the last. Each entry is the rstripped header without `>` and the rstripped body lines joined |
| ScoreSort.OneRecordDropped | helper_scripts/calculate_consensus.py:17-32 | a file with one scored record reports "No FASTA entries" |
| ScoreSort.ParseAllEntriesRecords | helper_scripts/calculate_consensus.py:12-22 | the reader with the final push added returns one entry for every header line |
| ScoreSort.DigitRun | helper_scripts/calculate_consensus.py:26 | greedy `\d+` consumes the maximal run of ASCII digits |
| ScoreSort.FirstMatch | helper_scripts/calculate_consensus.py:26 | `re.search` finds the leftmost position where ` score=<digits>.<digits>` matches, or reports that there is none |
| ScoreSort.MatchesAt | helper_scripts/calculate_consensus.py:26 | ` score=\d+\.\d+` matches at a position: the seven characters ` score=`, one or more digits, `.`, one or more digits |
| ScoreSort.ScoreAt | helper_scripts/calculate_consensus.py:26-27 | `float(group(1))` at a match, read exactly: the integer value of the digits before the `.` plus that of the digits after it over ten to their number. The pattern has no sign, so the value is never negative |
| ScoreSort.GetScore | helper_scripts/calculate_consensus.py:25-27 | `get_score` finds no score exactly when the pattern matches nowhere in the header, and a score it finds is never negative |
| ScoreSort.GetScoreLeftmost | helper_scripts/calculate_consensus.py:25-27 | the score is the value of the leftmost match |
| ScoreSort.GetScoreExample | helper_scripts/calculate_consensus.py:25-27 | ` score=2.05` scores exactly 2.05 |
| ScoreSort.GetScoreNeedsBlank | helper_scripts/calculate_consensus.py:26 | a header with no blank has no score |
| ScoreSort.KeyAll | helper_scripts/calculate_consensus.py:35 | keying succeeds exactly when every entry has a score, and pairs each entry with its score |
| ScoreSort.Insert | helper_scripts/calculate_consensus.py:35 | inserting adds exactly the one element |
| ScoreSort.StableSort | helper_scripts/calculate_consensus.py:35 | the sorted list is a permutation of the input |
| ScoreSort.InsertSorted | helper_scripts/calculate_consensus.py:35 | inserting into a list sorted by score keeps it sorted |
| ScoreSort.InsertWithScore | helper_scripts/calculate_consensus.py:35 | inserting puts the new element behind every element with an equal score |
| ScoreSort.StableSortSpec | helper_scripts/calculate_consensus.py:35 | the sort is ascending and a permutation, and entries with equal scores keep their file order |
| ScoreSort.SortInPlace | helper_scripts/calculate_consensus.py:35 | sorting in place leaves the array holding the stable sort of its old contents |
| ScoreSort.InsertStep | helper_scripts/calculate_consensus.py:35 | one step of the sort inserts the next element into the sorted prefix and leaves the rest |
| ScoreSort.ShiftGreater | helper_scripts/calculate_consensus.py:35 | the inner step of the in-place sort for the element x being placed at position i: returns the slot j at or below i such that every element from j up to i has a greater score than x and the one before j, if any, does not. Those elements each move one place up, in order, and everything below j and above i is unchanged |
| ScoreSort.Unkey | helper_scripts/calculate_consensus.py:42 | dropping the keys keeps the entries in order |
| ScoreSort.KeptCount | helper_scripts/calculate_consensus.py:41-42 | `int(num_records * n / 100)` truncates toward zero: for a non-negative product k is the largest with 100·k at most the product, for a negative one the smallest with 100·k at least it |
| ScoreSort.PyPrefix | helper_scripts/calculate_consensus.py:42 | `entries[:k]` is a prefix: k entries for k between 0 and n, all of them past n, all but -k from the end for k between -n and 0, none below -n |
| ScoreSort.KeptCountBounds | helper_scripts/calculate_consensus.py:41-42 | for `top` between 0 and 100, exactly the first floor(top·n/100) entries are kept, never more than n |
| ScoreSort.KeptCountAbove | helper_scripts/calculate_consensus.py:41-42 | at `top` of 100 or more, all entries are kept |
| ScoreSort.KeptCountNegative | helper_scripts/calculate_consensus.py:41-42 | a negative `top` above -100 makes the slice bound count from the end |
| ScoreSort.KeptCountFarNegative | helper_scripts/calculate_consensus.py:41-42 | at -100 or below, nothing is kept |
| ScoreSort.RecordText | helper_scripts/calculate_consensus.py:43 | one record is a `>` line holding the header, then the sequence line, each ended by a line break |
| ScoreSort.Serialise | helper_scripts/calculate_consensus.py:42-43 | nothing is written exactly when no entry is kept, and otherwise the text runs from a `>` to a final line break |
| ScoreSort.SerialiseSnoc | helper_scripts/calculate_consensus.py:42-43 | writing one more entry appends its record `>header\nsequence\n` |
| ScoreSort.WriteRecords | helper_scripts/calculate_consensus.py:38-43 | the writing loop writes the kept entries' records in order |
| ScoreSort.SortFasta | helper_scripts/calculate_consensus.py:5-43 | the key function is reached only after the reader returned at least one entry, and the file is written only when every entry has a score |
| ScoreSort.SortFastaReadError | helper_scripts/calculate_consensus.py:8-22 | the function raises in the reader exactly when the first line is not a header |
| ScoreSort.SortFastaNoEntries | helper_scripts/calculate_consensus.py:17-32 | "No FASTA entries" is reported exactly for a well-started file with at most one header line |
| ScoreSort.SortFastaMissingScore | helper_scripts/calculate_consensus.py:25-35 | the key function raises exactly when some pushed record's header has no score |
| ScoreSort.SortFastaWritten | helper_scripts/calculate_consensus.py:35-43 | with every pushed record scored, for any `top`, the file holds the prefix `[:int(top·n/100)]` of an ascending, stable, permuting order of the n pushed records. For `top` between 0 and 100 that is the first floor(top·n/100) of them |
| ScoreSort.SortFastaAllWritten | helper_scripts/calculate_consensus.py:12-43 | with the final push added, for any `top`, a well-started file whose n header lines are all scored has the prefix `[:int(top·n/100)]` of all n records written in score order |
| ScoreSort.OneRecordKept | helper_scripts/calculate_consensus.py:12-43 | with the final push added, the one-record file that the code drops is written |
| ScoreSort.SortFastaByScore | helper_scripts/calculate_consensus.py:5-43 | the method implementing `sort_fasta_by_score` has the outcome the four lemmas above characterise |
| Consensus.StepSeq | helper_scripts/calculate_consensus.py:53-58 | one pass of the loop body. A raw line starting with `>` appends `current_seq` to `sequences` when it is non-empty, and empties it. Any other line appends the line's `strip()` to `current_seq` |
| Consensus.Run | helper_scripts/calculate_consensus.py:52-58 | the reader's state after a run of lines: the body applied to them in order |
| Consensus.ReadSequences | helper_scripts/calculate_consensus.py:49-60 | what the reading part returns: the state after every line from empty `sequences` and `current_seq`, with a non-empty `current_seq` appended at the end |
| Consensus.ReadSequencesLoop | helper_scripts/calculate_consensus.py:49-60 | the reading loop and its final append compute the fold of the loop body |
| Consensus.RunAppend | helper_scripts/calculate_consensus.py:52-58 | reading two parts of a file in turn is reading the whole |
| Consensus.NonEmptyJoins | helper_scripts/calculate_consensus.py:54-60 | no empty sequence is collected, and at most one per segment |
| Consensus.ReadShape | helper_scripts/calculate_consensus.py:52-58 | after any prefix of the file, the closed segments have been collected, and the open segment's stripped lines are in `current_seq` |
| Consensus.ReadSequencesSegments | helper_scripts/calculate_consensus.py:49-60 | the reader returns the stripped contents of every segment, in order, with empty ones skipped. Lines before the first header form a segment, and the last record is kept |
| Consensus.NonEmptyJoinsEmpty | helper_scripts/calculate_consensus.py:54-60 | nothing is collected exactly when every segment strips to nothing |
| Consensus.Column | helper_scripts/calculate_consensus.py:65 | `[seq[i] for seq in sequences]`: the i-th character of each sequence, in sequence order |
| Consensus.IsMostCommon | helper_scripts/calculate_consensus.py:66 | a value `max(set(column), key=column.count)` can return: a character of the column that no other character of it outnumbers. Which of several tied characters Python picks depends on set iteration order and is left open |
| Consensus.MinLength | helper_scripts/calculate_consensus.py:64 | `min(len(seq) ...)` is the length of some sequence, and no sequence is shorter |
| Consensus.MostCommonAmong | helper_scripts/calculate_consensus.py:66 | among any non-empty set of candidates, one occurs at least as often as every other |
| Consensus.MostCommonExists | helper_scripts/calculate_consensus.py:66 | `max(set(column), key=column.count)` always has a value for a non-empty column |
| Consensus.ConsensusOf | helper_scripts/calculate_consensus.py:62-67 | an empty sequence list raises. Otherwise the consensus is as long as the shortest sequence, and each character is one of the most common characters of its column |
| Consensus.ProcessFastaFile | helper_scripts/calculate_consensus.py:47-69 | `process_fasta_file` raises exactly when the reader finds no sequence. Otherwise it returns a consensus of the sequences read |
| Consensus.ConsensusOfCopies | helper_scripts/calculate_consensus.py:63-67 | the consensus of copies of one sequence is that sequence |
| Consensus.TwoCountsBound | helper_scripts/calculate_consensus.py:66 | two distinct characters together occur at most as often as the column is long |
| Consensus.MajorityWins | helper_scripts/calculate_consensus.py:66 | a character held by more than half of a column is its only most common character |
| Consensus.MajorityInConsensus | helper_scripts/calculate_consensus.py:63-67 | a column held by a strict majority puts that character in every possible consensus |
| Pipeline.FormatRecord | helper_scripts/calculate_consensus.py:91-98 | every record starts with the line `>A`, continues with the consensus and ends with a line break. A `:` follows the consensus exactly when a non-empty binder is given. Then the record is the consensus, `:`, the binder with each `Z` made a line break, and the final `\n`: its length is that of the consensus plus the binder plus five, and each binder character stands at its place after the `:`. Without a binder, the record is `>A`, the consensus and two line breaks, nothing more |
| Pipeline.FormatRecordNewlines | helper_scripts/calculate_consensus.py:91-98 | a record has two line breaks, plus one for every `Z` of a given, non-empty binder |
| Pipeline.FormatRecordNoBinder | helper_scripts/calculate_consensus.py:96-98 | without a binder, a record is exactly the two lines `>A` and the consensus |
| Pipeline.FormatRecordBinderLines | helper_scripts/calculate_consensus.py:91-95 | with a binder, the record still reads back as the line `>A` followed by the lines of the consensus, `:` and the binder with each `Z` turned into a line break |
| Pipeline.SplitSerialise | helper_scripts/calculate_consensus.py:43 | the written file reads back as a header line and a sequence line per record |
| Pipeline.RunRecordLines | helper_scripts/calculate_consensus.py:52-60 | reading those lines collects each record's stripped sequence, skipping empty ones |
| Pipeline.WrittenSequences | helper_scripts/calculate_consensus.py:43-60 | writing records and reading the file back with `process_fasta_file` gives their non-empty stripped sequences in order |
| Pipeline.RecordWritable | helper_scripts/calculate_consensus.py:12-22 | every record the sort reader builds has no line break and no body starting with `>`, so it survives the round trip |
| Pipeline.SortedFileSequences | helper_scripts/calculate_consensus.py:87-90 | for any `top`, `process_fasta_file` on the sorted file sees the sequences of the records `[:int(top·n/100)]` keeps of the score order |
| Pipeline.SortedSequences | helper_scripts/calculate_consensus.py:87-90 | what `process_fasta_file` reads from `sorted_<name>` after the sort: the sequences of the written text, or none when the sort wrote nothing |
| Pipeline.FileError | helper_scripts/calculate_consensus.py:86-90 | the exception a failing file ends `main` with: the sort's own error, the failed open of the never-created `sorted_<name>` after "No FASTA entries", or the empty `min` of `process_fasta_file` when the written file holds no sequence |
| Pipeline.FileRecord | helper_scripts/calculate_consensus.py:86-98 | one file yields a record exactly when the sorted file holds a sequence. The record is the formatted consensus of those sequences, otherwise each failure is named |
| Rmsd.FirstChain | helper_scripts/rmsd.py:61-62 | the chain found has the id and no earlier chain has it. None is found exactly when no chain has the id |
| Rmsd.FirstChainAt | helper_scripts/rmsd.py:61-66 | the loop's `break` stops at the first chain with the id |
| Rmsd.ResidueCoords | helper_scripts/rmsd.py:55-71 | `get_residue_coords` never returns an empty list, raises only its ValueError, and raises it whenever no chain has the id |
| Rmsd.GetResidueCoords | helper_scripts/rmsd.py:55-71 | the nested loops with their `break` compute the selection, and never return an empty list |
| Rmsd.AtomCoords | helper_scripts/rmsd.py:65 | `[a.coord for a in atoms if a.name in atom_types]` (also lines 38 and 42): the coordinates of the atoms whose name is listed, in atom order |
| Rmsd.ChainAtoms | helper_scripts/rmsd.py:38 | `chains.get_atoms()` (also line 42): the atoms of every residue of the chain, residue by residue, each in its own order |
| Rmsd.SelectedCoords | helper_scripts/rmsd.py:63-65 | `coords` after the loop over the chain's residues: for each residue, in chain order, whose `id[1]` is in `residues`, the coordinates of its atoms with a listed name |
| Rmsd.AtomCoordsAppend | helper_scripts/rmsd.py:65 | the atom filter over two atom runs is the filter over the first run followed by the filter over the second |
| Rmsd.SelectedCoordsAppend | helper_scripts/rmsd.py:63-65 | the selection over two residue runs is the first run's selection then the second, in chain order |
| Rmsd.SelectedCoordsOne | helper_scripts/rmsd.py:64-65 | a residue contributes its filtered atoms, in atom order, exactly when its number is listed |
| Rmsd.SelectedCoordsByMembership | helper_scripts/rmsd.py:64 | residue lists with the same members select the same coordinates |
| Rmsd.ResidueCoordsByMembership | helper_scripts/rmsd.py:64 | the order and duplicates of `residues` do not change the result or the error |
| Rmsd.OnlyFirstChain | helper_scripts/rmsd.py:61-66 | chains after the first with the id are never examined. Structures that agree up to it give the same result |
| Rmsd.AtomCoordsEmpty | helper_scripts/rmsd.py:65 | the atom filter keeps nothing exactly when no atom has one of the names |
| Rmsd.SelectedCoordsEmpty | helper_scripts/rmsd.py:63-65 | the selection is empty exactly when no atom of a listed residue has one of the names |
| Rmsd.ResidueCoordsOutcome | helper_scripts/rmsd.py:61-69 | the result is never empty. It exists exactly when the first chain with the id has a listed residue with a named atom, and otherwise the error is the ValueError |
| Rmsd.SelectAllResidues | helper_scripts/rmsd.py:36-43 | with every residue listed, the selection is the atom filter over the whole chain: it is what `align` extracts |
| Rmsd.AlignCoords | helper_scripts/rmsd.py:36-46 | `align` hands two lists of one length to the superimposer, and raises only UnboundLocalError or the count ValueError |
| Rmsd.ExtractChain | helper_scripts/rmsd.py:36-43 | `align`'s loop over chains yields the filtered atoms of the first chain with the id, and leaves the list unbound exactly when no chain has the id |
| Rmsd.Align | helper_scripts/rmsd.py:36-46 | the method performs both extractions and the count check in the source's order |
| Rmsd.AlignOutcome | helper_scripts/rmsd.py:36-46 | the native list is unbound exactly when no native chain has the id. The model list is unbound exactly when the native chain exists and no model chain has the id. With both chains found, the count ValueError is raised exactly when the filtered counts differ, and equal counts reach the superimposer with the two whole-chain selections. No other error occurs |
| Rmsd.PairAtoms | helper_scripts/rmsd.py:78-79 | `rmsd_no_align` raises ValueError exactly when the lengths differ, and otherwise pairs atom i with atom i |
| Rmsd.MotifPairs | helper_scripts/rmsd.py:84-93 | the deviation `main` computes is never taken over zero atom pairs |
| Rmsd.MotifPairsOk | helper_scripts/rmsd.py:84-93 | `main` reaches the deviation only when alignment succeeds and both motif selections are non-empty and of one length. Native atom i is then paired with moved model atom i |

## Left out

- The superposition: the SVD, rotation, translation and square root (rmsd.py:48-52, 81, 91-92). These are floating-point numerics in a foreign library. Coordinates are an unspecified type, and the transform is a function parameter.
- `PDBParser` and every file read and write. Structures are given already parsed, and files are given as line sequences or texts.
- In `get_chains()`, a multi-model structure's chains follow each other model by model. The model takes that iteration order as the chain sequence, without models. Insertion codes, alternate locations and hetero flags of residue ids are not modelled; a residue is identified by `id[1]` only.
- Parsing the score into a float (calculate_consensus.py:27). The score is the exact decimal value of the matched digits, so two scores that round to the same float can still compare as different.
- `\d` matches only ASCII digits in the model. Python's `re` also matches other Unicode decimal digits.
- `int(num_records) * len(entries) / 100` is computed exactly, then truncated toward zero. Float rounding of that quotient for very large values is not modelled.
- A missing or non-integer `--top`. `int(num_records)` is evaluated only at calculate_consensus.py:41. A file whose first line is not a header still fails in the reader first, with its TypeError at line 22. A well-started file (its first line a header) with at most one header line still returns "No FASTA entries" normally. Otherwise the entries are keyed and sorted first, so a missing score still raises AttributeError first. Failing that, `open(output_file, "w")` at line 38 has already created an empty `sorted_<name>` before `int` raises TypeError (no `--top`) or ValueError (not an integer). The model takes `top` as an integer.
- Universal-newline translation of `\r\n` and `\r`. The lines are those left after Python's newline translation.
- `main`'s loop over `os.listdir`:
  - the `.fa` filter;
  - collecting the records in directory order;
  - the final `writelines` of the combined file (calculate_consensus.py:83-88, 102-103).

  The per-file step is modelled by `Pipeline.FileRecord`. An exception from any file ends `main` before the `writelines` at lines 102-103, so no combined file is written at all. Otherwise the combined file is the records of the `.fa` files, in the order `os.listdir` returns them.
- When `sort_fasta_by_score` writes nothing, `process_fasta_file` opens a `sorted_<name>` left from an earlier run, if there is one. The model reports this case as `NoSortedFile`, as on a clean folder.
- `print` of progress messages and of the RMSD; argparse; `os.path.isfile` checks.
- Consensus.ConsensusOf: does not fix which of several equally common characters is chosen, because Python's set iteration order decides it.

## Findings

| source | as written | input that shows it | evidently intended | confidence | as-written member | corrected member |
|---|---|---|---|---|---|---|
| helper_scripts/calculate_consensus.py:12-22 | entries are pushed only when a later header appears and nothing is pushed after the loop, so the last record of every file is dropped | the lines `>d score=1.5`, `ACGT` give "No FASTA entries" and no sorted file | push the open entry after the loop, as `process_fasta_file` does (lines 59-60), so that every record is sorted | not executed | ScoreSort.OneRecordDropped | ScoreSort.SortFastaAllWritten |

The corrected reader `ScoreSort.ParseAllEntries` pushes the open entry after the loop. `ScoreSort.ParseAllEntriesRecords` proves it returns one entry per header line. `ScoreSort.SortFastaAll` is `sort_fasta_by_score` built on it, and `ScoreSort.SortFastaAllWritten` and `ScoreSort.OneRecordKept` state what it writes. `ScoreSort.SortFasta`, `ScoreSort.SortFastaByScore` and `Pipeline` keep the behaviour as written, because `main` runs that code.
