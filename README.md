# MPNN_utils in Dafny

A model of `MPNN_utils.py`, a small adapter between the FASTA output of the
ProteinMPNN sequence-design tool and plain FASTA, with a few helpers that
annotate the resulting tables. The model covers the following:

- **MPNN reader** (`MPNN_fasta_to_df`, module `MpnnReader`). The first header
  and sequence line give the "original" row (T 0.0, sample -1, the score token
  of the first header, seq_recovery 1.0000). Each later `>` line is split on
  `", "`, and the text after the last `=` of its first four pieces is taken.
  The next line is consumed as that header's sequence.
- **Plain FASTA reader** (`fasta_to_df`, module `Fasta`). `#` lines are
  skipped. A `>` line names a record, and the next line is taken as its
  sequence whatever it holds. The name loses its `>` and its last character,
  the sequence its last character.
- **FASTA writer** (`write_df_to_fasta`, `Frames.Frame.WriteFasta`). It writes
  `">" + label + "\n" + sequence + "\n"` per row, in row order.
- **Annotators**:
  - rank naming (`add_name_list_to_MPNN_df`, `Frames.Frame.AddRankNames`)
  - loop substitution (`add_loop`, `Annotate.AddLoop`)
  - residue counting (`calc_num_residue_df`, `Frames.Frame.CountResidues`)
  - the identity array (`calc_seq_identity_array`, `Annotate.IdentityArray`)

Both readers walk the file's lines with one index. A header advances the index
by two, because of the `readline()` inside the `for` loop. Any other line
advances it by one. `LineWalk.Headers` is that walk. Both readers are proved to
yield exactly one row per header of the walk.

A pandas table is modelled by the class `Frames.Frame`, which has three fields:

- the columns a reader created (`Body`)
- the row labels (`Index`: positions or names)
- the columns assigned later with `df[label] = values`

`calc_num_residue_df` and
`add_name_list_to_MPNN_df` change a `Frame` in place, as the source changes the table.

Python's own behaviour is written out in module `PyStr`:

- slicing with negative and out-of-range bounds
- `split(sep)` and the argument-less `split()` with Python's whitespace set
- `replace`, `str(n)` and `int(s)`
- the lines a text-mode file yields, with its newline translation

Python's exceptions become `Err` values, or a false `ok` result in
`Frames.Frame.CountResidues` and `Frames.Frame.WriteFasta`. The `False`
sentinel becomes `None`.

The code raises Python's exceptions, prints and returns the table unchanged,
or returns `False`; the model follows the code.

## Model

| member | source | states |
|---|---|---|
| `LineWalk.Headers` | MPNN_utils.py:20-29 | the walk's headers are in file order, each is a `>` line at or after the start, and two of them are at least two lines apart, so the line after a header is never taken as one |
| `LineWalk.HeadersCover` | MPNN_utils.py:54-59 | every `>` line at or after the start is either a header of the walk or the line right after one |
| `MpnnReader.ReadMpnnFasta` | MPNN_utils.py:8-30 | the loop that advances by two on a header computes exactly the table `MpnnTable` of the lines, error included |
| `MpnnReader.MpnnTableShape` | MPNN_utils.py:15-29 | a successful read has 1 + (number of headers from line 3) rows. Row 0 is (0.0, -1, score token of line 1, 1.0000, line 2 without its last character). Row k+1 is the row of the k-th header and the line after it |
| `MpnnReader.MpnnTableFails` | MPNN_utils.py:15-28 | a read fails exactly when the first header has no score token or one of the walk's headers is malformed (both directions) |
| `MpnnReader.SamplesAreRowsOfHeaders` | MPNN_utils.py:20-29 | the rows the loop appends are those of the walk's headers, in order; lines that are neither a header nor the line after one contribute nothing |
| `MpnnReader.RowsOfGoodHeaders` | MPNN_utils.py:23-29 | with every header well formed there is one row per header, the k-th made from the k-th header and its next line |
| `MpnnReader.BadHeaderFails` | MPNN_utils.py:22-28 | one malformed header makes the whole read fail |
| `MpnnReader.FirstBadHeader` | MPNN_utils.py:22-28 | a failed read fails with the error of the first header whose row fails, and every header before it is well formed: the exception raised is that of the first malformed header |
| `MpnnReader.SampleRowFields` | MPNN_utils.py:22-29 | of a well-formed header, T, score and seq_recovery are the text after the last `=` of pieces 0, 2 and 3, the sample is `int()` of that text in piece 1, and the sequence is the next line minus its last character |
| `MpnnReader.OriginalScore` | MPNN_utils.py:15-16 | the score token of the first header: its words after dropping `>`, the line end and one more character at each end; piece 1 of the second word's `split("=")`, less its last character. There is an IndexError when there are fewer than two words or no `=` (the failing case of `MpnnTableFails`). Its value on the header format is given by `OriginalScoreRoundTrip` |
| `MpnnReader.OriginalScoreRoundTrip` | MPNN_utils.py:15-16 | a first header `>name, score=<s>, <rest>` whose name is non-empty and holds no whitespace, whose score token holds no whitespace and no `=`, and whose `<rest>` is non-empty, yields exactly `<s>` as the original row's score |
| `MpnnReader.OriginalRow` | MPNN_utils.py:15-18 | the original row, with the literals 0.0, -1 and 1.0000, the score token and line 2 less its last character, or the score's IndexError (stated by `MpnnTableShape`) |
| `MpnnReader.SampleRow` | MPNN_utils.py:22-29 | the row of a later header. The pieces of `line[1:-1].split(", ")` are read in source order: IndexError below two pieces, then ValueError when `int()` rejects piece 1, then IndexError below four pieces. Its meaning is given by `SampleRowOk`, `SampleRowFields` and `SampleHeaderRoundTrip` |
| `MpnnReader.SampleRowOk` | MPNN_utils.py:22-29 | a later header makes a row exactly when it has four or more pieces and `int()` accepts the value of piece 1 (both directions). The row then holds the `split("=")[-1]` values of pieces 0, 2 and 3, that integer, and the next line less its last character |
| `MpnnReader.MpnnTable` | MPNN_utils.py:8-30 | the whole table, or the first exception raised. Its shape is given by `MpnnTableShape`, and the cases that fail by `MpnnTableFails` and `FirstBadHeader` |
| `MpnnReader.SampleHeaderRoundTrip` | MPNN_utils.py:22-29 | a header `>T=t, sample=n, score=s, seq_recovery=r` written from tokens free of `=` and `", "` reads back as the row (t, n, s, r, sequence) |
| `MpnnReader.HeaderPieces` | MPNN_utils.py:22 | such a header, without `>` and its line end, splits on `", "` into its four `key=value` pieces |
| `MpnnReader.FieldValue` | MPNN_utils.py:24-27 | `piece.split("=")[-1]`; `FieldValueOf` and `SampleRowFields` state that it is the text after the last `=` |
| `MpnnReader.SamplesFrom` | MPNN_utils.py:20-29 | the rows the `for` loop appends from a given line, or the first exception; `SamplesAreRowsOfHeaders` states that they are the rows of the walk's headers, in order |
| `MpnnReader.FieldValueOf` | MPNN_utils.py:24-27 | the value read from `key=v` is `v` when `v` holds no `=` |
| `Fasta.ReadFasta` | MPNN_utils.py:47-62 | the loop computes exactly the records `RecordsFrom(lines, 0)` |
| `Fasta.RecordsAreThoseOfHeaders` | MPNN_utils.py:54-59 | the reader yields one record per header of the walk, in file order: name = header without its first and last character, sequence = the next line (or "" at end of file) without its last character; comment and other lines yield nothing |
| `Fasta.FastaTextAppend` | MPNN_utils.py:69-70 | writing one more row appends exactly its two lines |
| `Fasta.RecordsFrom` | MPNN_utils.py:54-59 | the records of `fasta_to_df`'s loop from a given line; `RecordsAreThoseOfHeaders` states that they are one record per header of the walk, and `RoundTrip` that they read back the written text |
| `Fasta.RecordAt` | MPNN_utils.py:58-59 | `[line[1:-1], seq[:-1]]` for a header and the line `readline()` returns after it (`""` at end of file); `RecordsAreThoseOfHeaders` and `ReadOneEntry` state its use |
| `Fasta.ReadOneEntry` | MPNN_utils.py:57-59 | the two lines written for a record, in front of any other lines, read back as that record followed by the records of the other lines |
| `Fasta.Entry` | MPNN_utils.py:70 | the two lines written for one row; `FastaTextLines` states that they come back as exactly those two lines |
| `Fasta.FastaText` | MPNN_utils.py:69-70 | the entries of the records in order; `FastaTextAppend` states that each row appends its entry, and `RoundTrip` that reading the text gives the records back |
| `Fasta.RoundTrip` | MPNN_utils.py:54-70 | text written for records whose names and sequences hold no line break reads back, through text-mode line iteration, as the same records in the same order |
| `Fasta.FastaTextLines` | MPNN_utils.py:69-70 | for records whose names and sequences hold no line break, the written text consists of exactly two lines per record, header first |
| `Frames.Frame.WriteFasta` | MPNN_utils.py:64-71 | on a table without a `name` column, succeeds exactly when no label repeats; with one it never fails. The text is the two lines per row, in row order, of every row before the first row whose label repeats |
| `Frames.Labels` | MPNN_utils.py:69-70 | what `df.loc[name].name` prints: the names of a name index, or `str(i)` for position `i`, one per row; `RangeLabelsDistinct` and `RankedTableWritable` state when they repeat |
| `Frames.Entries` | MPNN_utils.py:69-70 | one (label, sequence) record per row, in row order; `FastaTableRoundTrip` states that for a table read from FASTA they are its records |
| `Frames.Repeated` | MPNN_utils.py:70 | the row's label is carried by another row, so `df.loc[label]` is a table, not a row |
| `Frames.FirstRepeated` | MPNN_utils.py:69-70 | the first row at or after `from` whose label repeats, or the number of rows: no row before it repeats its label |
| `Frames.NoRepeatIffDistinct` | MPNN_utils.py:69-70 | no row has a repeated label exactly when the labels are pairwise distinct (both directions) |
| `Frames.RangeLabelsDistinct` | MPNN_utils.py:69-70 | a table labelled by position has distinct labels `str(i)`, so writing it never fails |
| `Frames.FastaTableRoundTrip` | MPNN_utils.py:47-71 | a table read from plain FASTA with distinct, line-break-free names is written in full and reads back as the same records |
| `Frames.Frame.CountResidues` | MPNN_utils.py:79-83 | assigns `num_<res>` with one entry per row in row order, each `len(seq.split(res)) - 1`; rows, labels and other columns are untouched; fails only for an empty `res` on a non-empty table |
| `Annotate.ResidueCounts` | MPNN_utils.py:83 | one count per sequence, in order |
| `Annotate.ResidueCount` | MPNN_utils.py:83 | `len(seq.split(res)) - 1` for a non-empty `res`; `ResidueCountOfLetter` states that for one letter this is the letter's number of occurrences |
| `Annotate.ResidueCountOfLetter` | MPNN_utils.py:79-83 | for a one-letter code the count is the number of occurrences of that letter |
| `Annotate.ResidueCountExample` | MPNN_utils.py:83 | `"AAKA"` has 3 of `"A"` |
| `Frames.AssignColumn` | MPNN_utils.py:44 | `df[label] = values`, as at lines 44 and 83: `AssignColumnLookup` and `AssignColumnLabels` state that the label then holds the new cells, other columns are kept, and the column order is kept with a new label last |
| `Frames.AssignColumnLookup` | MPNN_utils.py:83 | after `df[label] = cells` that label holds the new cells and every other column is unchanged |
| `Frames.AssignColumnLabels` | MPNN_utils.py:44 | an assignment keeps column order: an existing label stays in place, a new one is appended |
| `Frames.DropColumn` | MPNN_utils.py:45 | the columns `set_index("name")` keeps; `DropColumnLabels` states that exactly the `name` column is gone and the rest are unchanged |
| `Frames.Frame.Relabelled` | MPNN_utils.py:45 | the table `set_index` returns: the same rows and kept columns, indexed by the given names |
| `Frames.DropColumnLabels` | MPNN_utils.py:45 | `set_index("name")` removes the `name` column and keeps every other column as it was |
| `Frames.Frame.AddRankNames` | MPNN_utils.py:32-45 | an empty table fails (IndexError) and one without `sample` fails (KeyError). When the last sample is not -1 the table itself is returned unchanged. Otherwise the name list becomes the `name` column of this table, and a fresh table with the same rows, indexed by the names and without that column, is returned |
| `Frames.RankName` | MPNN_utils.py:36 | `f"{namebase}_rank{i}"`; `RankNameInjective` states that different ranks give different names |
| `Frames.RankNameInjective` | MPNN_utils.py:36 | two rank names on the same name base are equal only for the same rank |
| `Frames.RankNames` | MPNN_utils.py:36-37 | n-1 rank names `<namebase>_rank1` … `<namebase>_rank<n-1>` in order, then the original's name: one name per row |
| `Frames.RankNamesDistinct` | MPNN_utils.py:36-37 | the name list has no repeat exactly when the original's name is none of the rank names (both directions) |
| `Frames.RankedTableWritable` | MPNN_utils.py:36-45 | writing a rank-named table succeeds exactly when the original's name is none of the rank names |
| `Frames.Frame.FromMpnn` | MPNN_utils.py:30 | the MPNN table: reader rows, positional labels, no extra columns |
| `Frames.Frame.FromFasta` | MPNN_utils.py:62 | the plain table: sequences as the column, names as the index, in record order |
| `Annotate.AddLoop` | MPNN_utils.py:77 | `seq.replace("/", loop_seq)`; its meaning is given by `AddLoopIsSplitJoin`, `AddLoopAppend`, `AddLoopWithoutSeparator`, `AddLoopRemovesSeparators` and `AddLoopLength` |
| `Annotate.AddLoopIsSplitJoin` | MPNN_utils.py:73-77 | the result is the sequence cut at every `/` and rejoined with the loop sequence: every `/` replaced, all other text kept in order |
| `Annotate.AddLoopAppend` | MPNN_utils.py:77 | substitution works piecewise over concatenation |
| `Annotate.AddLoopWithoutSeparator` | MPNN_utils.py:77 | a sequence without `/` is returned unchanged |
| `Annotate.AddLoopRemovesSeparators` | MPNN_utils.py:77 | if the loop sequence has no `/`, the result has none |
| `Annotate.AddLoopLength` | MPNN_utils.py:77 | each `/` is replaced by the whole loop sequence, so the length changes by (loop length - 1) per `/` |
| `Annotate.AddLoopExamples` | MPNN_utils.py:73-77 | `"ABC/DEF"` with `"GG"` gives `"ABCGGDEF"`; `"ABC"` is unchanged |
| `Annotate.IdentityArray` | MPNN_utils.py:85-92 | `None` (the source's `False`) exactly when the lengths differ; otherwise one entry per position, 1 exactly where the residues agree and 0 exactly where they differ |
| `Annotate.IdentityWithItself` | MPNN_utils.py:92 | a sequence against itself gives all ones |
| `Annotate.IdentitySymmetric` | MPNN_utils.py:92 | swapping the sequences gives the same answer |
| `Annotate.IdentitySumIsLengthIffEqual` | MPNN_utils.py:89-92 | for equal lengths the flags sum to at most the length, and to the length exactly when the sequences are equal |
| `Annotate.IdentityExample` | MPNN_utils.py:85-92 | `"ABCD"` against `"ABXD"` gives `[1, 1, 0, 1]`; unequal lengths give the sentinel |
| `PyStr.LastPieceIsAfterLast` | MPNN_utils.py:24-27 | `piece.split("=")[-1]` is the text after the last `=`, or the whole piece |
| `PyStr.Slice` | MPNN_utils.py:15-17 | Python's `s[lo:hi]`: negative bounds count from the end and bounds out of range are clamped. Its length is at most `s`'s, and `DropLastChar` and `DropFirstAndLastChar` state the two slices the code takes |
| `PyStr.DropLastChar` | MPNN_utils.py:17 | `s[:-1]` is `s` without its last character, and "" on "" |
| `PyStr.DropFirstAndLastChar` | MPNN_utils.py:15 | `s[1:-1]` drops the first and last character, and is "" when `s` is shorter than two |
| `PyStr.Split` | MPNN_utils.py:22 | `s.split(sep)`, with at least one piece. `JoinSplit`, `SplitPiecesAvoidSeparator`, `SplitCharCount` and `LastPieceIsAfterLast` state its meaning |
| `PyStr.Words` | MPNN_utils.py:16 | `s.split()`: its words are non-empty and hold no whitespace. Each is a maximal run: run together they are the non-whitespace characters (`WordsCoverNonSpace`), and the cuts fall exactly at whitespace (`WordsOfWord`, `WordsAfterSpaces`, `WordsOfJoin`) |
| `PyStr.WordsOfWord` | MPNN_utils.py:16 | a non-empty space-free run followed by whitespace or the end of the text is taken as one whole word |
| `PyStr.WordsAfterSpaces` | MPNN_utils.py:16 | whitespace in front of the text yields no word |
| `PyStr.WordsOfJoin` | MPNN_utils.py:16 | non-empty space-free words joined by a non-empty run of whitespace split back into exactly those words |
| `PyStr.ReplaceChar` | MPNN_utils.py:77 | `s.replace(c, sub)` for a one-character `c`, characterised through `Annotate.AddLoop`'s lemmas |
| `PyStr.ParseInt` | MPNN_utils.py:25 | `int(s)`: surrounding whitespace, an optional sign and digit groups joined by single underscores. `ParseDigits`, `ParseNegativeDigits` and `IntToStringRoundTrip` state its values |
| `PyStr.ParseDigits` | MPNN_utils.py:25 | `int()` of a run of ASCII digits is their decimal value |
| `PyStr.ParseNegativeDigits` | MPNN_utils.py:25 | `int()` of `-` followed by a run of ASCII digits is minus their decimal value |
| `PyStr.FileLines` | MPNN_utils.py:20 | the lines a text-mode file yields: newline translation, then lines that each end at `\n` except perhaps the last. `FastaTextLines` and `SplitLinesCons` state what it yields for written text |
| `PyStr.SplitCharCount` | MPNN_utils.py:83 | splitting on one character gives one piece more than that character's occurrences |
| `PyStr.JoinSplit` | MPNN_utils.py:83 | the pieces of a split, joined with the separator, give back the string |
| `PyStr.SplitPiecesAvoidSeparator` | MPNN_utils.py:22 | no piece of a split contains the separator |
| `PyStr.WordsCoverNonSpace` | MPNN_utils.py:16 | the words of `split()`, run together, are exactly the non-whitespace characters |
| `PyStr.NatToString` | MPNN_utils.py:36 | `str(n)` for `n >= 0`: a non-empty run of decimal digits whose value is `n` (`NatToStringValue`); different numbers give different strings (`NatToStringInjective`) |
| `PyStr.NatToStringValue` | MPNN_utils.py:36 | the digits `str(n)` writes denote `n` |
| `PyStr.NatToStringInjective` | MPNN_utils.py:36 | `str(a) == str(b)` only when `a == b` |
| `PyStr.IntToString` | MPNN_utils.py:25 | `str(i)`, as the tool writes the `sample=<n>` piece that line 25 reads back: `-` before the digits of a negative number; `IntToStringRoundTrip` states that `int()` reads it back |
| `PyStr.IntToStringRoundTrip` | MPNN_utils.py:25 | `int(str(i)) == i` for every integer, so a written sample index reads back |
| `PyStr.TranslateIdentity` | MPNN_utils.py:54 | text without `\r` is unchanged by text-mode newline translation |
| `PyStr.SplitLinesCons` | MPNN_utils.py:54 | a line ending in its only `\n` is yielded as one line by file iteration |

## Left out

- File paths, opening, closing and writing files are not modelled. A reader gets
  the file's lines, and `PyStr.FileLines` gives the lines a text-mode file
  yields for a given content. The writer returns the text it would write.
  Decoding bytes to text, and encoding text to bytes, are not modelled.
- Frames.Frame.WriteFasta: a table named twice by `add_name_list_to_MPNN_df`
  carries a `name` column. On such a table `df.loc[label].name`, for a label
  two rows carry, selects that column instead of raising, and the source writes
  the printed form of the selected rows. pandas' printed form is not modelled:
  the model reports success and promises only the text before the first row
  whose label repeats.
- Frames.Frame.WriteFasta: newlines are written as `\n`, as on POSIX. On
  platforms where `os.linesep` is `\r\n` the file would differ.
- `print` diagnostics are not modelled; only returned values and table state are.
- MpnnReader.SampleRow: `float()` is not applied to T, score and seq_recovery.
  The model keeps the text `float()` would read. Python raises ValueError at
  the first `float()` that rejects its token; it converts piece 0 before it
  indexes piece 1. The model skips those conversions, so such a row either
  succeeds or fails with the error of a later step (for `>T=x` the source
  raises ValueError and the model gives IndexError).
- MpnnReader.OriginalRow: the same holds for the score of the first row. Its
  constant fields are the source's literals `0.0`, `-1` and `1.0000`, kept as they are written.
- PyStr.ParseInt: `int()` accepts non-ASCII decimal digits (Arabic-Indic,
  fullwidth and so on). The model accepts only ASCII digits, so it rejects
  such tokens where Python converts them.
- PyStr.ParseInt: Python 3.11 and later raise ValueError on a token of more
  than 4300 digits. The model has no such limit and converts it.
- The `elif not line` branch of `fasta_to_df` (MPNN_utils.py:60-61) is
  unreachable: file iteration never yields an empty line. The model simply
  ignores lines that are neither comments nor headers.
- pandas itself is not modelled (dtypes, `Series`, general indexing). Only the
  columns, labels and operations the utilities use are modelled.
- Frames.Frame.AddRankNames: the freshly returned table shares no state with
  this one. pandas would copy; the model allocates a new object with the same values.
