# CYP1A2 SNP report — Dafny model

`snps.py` runs a fixed chain of genomics tools (samtools, bcftools, snpEff,
bgzip, tabix) over one alignment file and writes `snp_report.csv`: a header
and one row per known CYP1A2 variant. Its own logic is the report itself:

- for each of five known SNPs, the text that `bcftools view <position>`
  followed by `grep -v '^#'` prints is reduced to one six-column row
  (`SNP, Position, Reference, Alternative, Genotype, Annotation`): the first
  line, stripped and split on tabs, gives REF, ALT, INFO and the genotype
  (the first sample column up to its first `:`) when it has at least ten
  fields, and otherwise the row holds `not found` in its four data columns;
- a second pass reads the report back, keeps the header and rewrites the
  genotype column of every data row: `0/0` becomes `Homozygous Reference`,
  `0/1` becomes `Heterozygous`, `1/1` becomes `Homozygous Alternate`, and any
  other value stays as it is.

The project has two modules:

- `Text` (`text.dfy`): Python's `str.split(sep)` for a one-character
  separator (`Split`) and its inverse `sep.join` (`Join`), `s.split(sep)[0]`
  (`PrefixBefore`), `str.strip()` (`Strip`, with the exact set of characters
  `str.isspace()` accepts) and the first line that `readline()` returns in
  text mode (`FirstLine`; `\n` and `\r` both end a line under universal
  newlines, and the terminator itself is whitespace that `strip()` removes).
- `SnpReport` (`report.dfy`): the SNP list, the progress description, the
  per-SNP row builder `BuildRow`, the genotype translation, and the two
  passes as methods with loops: `WriteReport` appends one row per SNP after
  the header, `RelabelReport` reads the header and appends each relabelled
  row. `AnalyseSnps` runs both over the known SNPs.

The external tools are a parameter: `query(position)` is the text the
filtered `bcftools view` prints for a position. Rows are `seq<string>`;
writing a row with the `csv` module and reading it back is taken to give the
same row.

Because `strip()` treats a tab as whitespace, empty fields at either end of
the first line disappear before it is split, and a line whose last sample
columns are empty can fall below ten fields and give the not-found row.

The not-found row is the SNP id, its position and four `not found` values
(snps.py:115, 118, 121).

## Model

| member | source | states |
|---|---|---|
| `Text.IsWhitespace` | snps.py:104 | the characters `strip()` removes include tab, space, `\n` and `\r`, and no printable ASCII character other than space |
| `Text.Split` | snps.py:106 | `line.split("\t")` gives one more piece than there are separators, and no piece contains the separator |
| `Text.JoinSplit` | snps.py:106 | joining the pieces with the separator gives back the line: splitting loses nothing |
| `Text.SplitJoin` | snps.py:106 | splitting a join of separator-free pieces gives back exactly those pieces, empty ones included |
| `Text.PrefixBefore` | snps.py:108 | the genotype is a prefix of the sample column, holds no `:`, and stops only at a `:` or at the end |
| `Text.PrefixBeforeIsFirstPiece` | snps.py:108 | that prefix is the first piece of `split(":")`, i.e. `parts[9].split(":")[0]` |
| `Text.LeadingSpace` | snps.py:104 | `strip()` cuts from the front a run of whitespace that stops at the first non-whitespace character |
| `Text.TrailingStart` | snps.py:104 | `strip()` cuts from the back a run of whitespace that stops at the last non-whitespace character |
| `Text.StripSlice` | snps.py:104 | `strip()` leaves a slice of the line and cuts off only whitespace on either side |
| `Text.Strip` | snps.py:104 | the stripped line is no longer than the line and neither starts nor ends with whitespace |
| `Text.StripUnchanged` | snps.py:104 | a line without leading and trailing whitespace is left as it is |
| `Text.StripIdempotent` | snps.py:104 | stripping twice is stripping once |
| `Text.StripEmpty` | snps.py:104-105 | the stripped line is empty exactly when the line is all whitespace |
| `Text.FirstLine` | snps.py:103-104 | `readline()` gives a prefix of the output that holds no line break and ends at a line break or at the end |
| `SnpReport.KnownSnpIds` | snps.py:62-68 | the list holds five SNPs with distinct ids, rs762551, rs2069514, rs2472300, rs2472304 and rs2470893 in that order |
| `SnpReport.HeaderColumns` | snps.py:73 | the header names six columns with `Genotype` in column 4, which is not a genotype code |
| `SnpReport.NotFoundRow` | snps.py:115-121 | the not-found row has six columns, the SNP id and position first and `not found` in the other four, and the relabelling pass leaves it unchanged |
| `SnpReport.Describe` | snps.py:80-82 | the description is the id alone exactly when the name is empty, and otherwise the id, ` (`, the name and `)` |
| `SnpReport.BuildRow` | snps.py:101-122 | every row has six columns, starts with the SNP id and its position, no data column holds a tab, and the genotype never holds `:` |
| `SnpReport.BuildRowBlank` | snps.py:102-105 | empty output, or a first line of whitespace only, gives `[id, position, not found ×4]` |
| `SnpReport.BuildRowFewFields` | snps.py:106-116 | a stripped first line with fewer than nine tabs (fewer than ten fields) gives `[id, position, not found ×4]` |
| `SnpReport.BuildRowOfRecord` | snps.py:103-112 | output whose first line is a VCF data line of at least ten fields gives REF (field 3), ALT (field 4), the genotype prefix of field 9 and INFO (field 7), whatever lines follow |
| `SnpReport.RelabelledRowOfRecord` | snps.py:104-149 | after both passes, such a line's row carries the label of its genotype code in column 4, the other columns as read |
| `SnpReport.BuildRowFound` | snps.py:105-112 | conversely, when the stripped first line has at least ten fields, the row is read from ten or more tab-free fields whose join is that line |
| `SnpReport.MapGenotype` | snps.py:144-149 | `0/0` becomes `Homozygous Reference`, `0/1` becomes `Heterozygous`, `1/1` becomes `Homozygous Alternate`, every other value (`not found` included) is returned unchanged, and the result is never a code |
| `SnpReport.MapGenotypeInjective` | snps.py:144-149 | distinct codes get distinct labels |
| `SnpReport.RelabelRow` | snps.py:143-149 | only column 4 changes, and only in rows with at least five columns; the row keeps its length |
| `SnpReport.RelabelRowIdempotent` | snps.py:143-149 | relabelling a row twice is relabelling it once |
| `SnpReport.RelabelReport` | snps.py:138-156 | the pass keeps the header, the row count and the row order and relabels every data row; an empty report has no header and gives no result |
| `SnpReport.RelabelReportIdempotent` | snps.py:138-156 | running the pass over its own output changes nothing |
| `SnpReport.WriteReport` | snps.py:71-122 | the report is the header followed by exactly one row per SNP, in list order, each built from the query output for that SNP's position |
| `SnpReport.AnalyseSnps` | snps.py:62-156 | over the five known SNPs, the final report is the header and each SNP's relabelled row, in list order |
| `SnpReport.ReportRowsIdentifySnps` | snps.py:75-122 | data row `i` of the report has six columns and names SNP `i - 1` and its position |
| `SnpReport.EachKnownSnpOnce` | snps.py:62-122 | in the final report each known SNP's id appears in exactly one data row, the row at its place in the list |
| `SnpReport.HeterozygousExample` | snps.py:104-149 | the line `chr15 74749576 . A G 50 PASS ANN=xyz GT:DP 0/1:30` for rs762551 gives `rs762551, chr15:74749576, A, G, Heterozygous, ANN=xyz` |

## Left out

- The external tools (snps.py:16-53, 89-95): indexing, region extraction, variant calling, annotation, compression and the per-position `bcftools view` and `grep` are foreign programs; their filtered output is the parameter `query`, and what they compute is not modelled.
- Failure of the setup steps (`check=True`, snps.py:25-53): an aborting run writes no report; the model starts from the query output.
- File handling (snps.py:71-73, 98-102, 124-132, 139-141, 153-156): creating, sizing and deleting the temporary files and writing and reading the CSV are file-system I/O. Only "empty output gives not found" is kept, as `content == []` in `BuildRow`.
- CSV quoting and escaping by the `csv` module: its code is not part of this model; a row written and read back is taken to be the same row.
- Decoding of the temporary file with the platform's text encoding: the output is taken to be already decoded into characters.
- Progress messages (`print`, snps.py:84 and others): `Describe` models the `description` string (snps.py:80-82) that the per-SNP message at snps.py:84 embeds; neither the rest of the message nor its printing is modelled.
- `SnpReport.RelabelReport`: an empty report makes `next(reader)` raise `StopIteration`; the model returns `None` instead of modelling the exception.
