/** The SNP report of `snps.py`: for each known SNP, the first data line that
    the filtered `bcftools view` query returns at its position becomes one
    six-column row (`SNP, Position, Reference, Alternative, Genotype,
    Annotation`), and a second pass over the written report rewrites the
    genotype codes `0/0`, `0/1` and `1/1` as descriptive labels.

    The external tools are not modelled: the text that `bcftools view <pos>`
    followed by `grep -v '^#'` leaves for a position is the parameter
    `query(position)`. CSV rows are `seq<string>`; writing a row and reading
    it back gives the same row. */
module SnpReport {
  import opened Text

  datatype Option<T> = None | Some(value: T)

  /** A known variant: its rs identifier, an optional alternate name (empty
      when there is none) and its genomic position as a region string. */
  datatype Snp = Snp(id: string, name: string, position: string)

  /** The five CYP1A2 variants the report covers, in report order. */
  const KnownSnps: seq<Snp> := [
    Snp("rs762551", "CYP1A2*1F", "chr15:74749576"),
    Snp("rs2069514", "CYP1A2*1C", "chr15:74754823"),
    Snp("rs2472300", "", "chr15:74749234"),
    Snp("rs2472304", "", "chr15:74751897"),
    Snp("rs2470893", "", "chr15:74745879")
  ]

  /** The report's ids are distinct and in the order of the list. */
  lemma KnownSnpIds()
    ensures |KnownSnps| == 5
    ensures forall i, j :: 0 <= i < j < |KnownSnps| ==> KnownSnps[i].id != KnownSnps[j].id
    ensures KnownSnps[0].id == "rs762551" && KnownSnps[1].id == "rs2069514" &&
      KnownSnps[2].id == "rs2472300" && KnownSnps[3].id == "rs2472304" && KnownSnps[4].id == "rs2470893"
  {
  }

  const Header: seq<string> :=
    ["SNP", "Position", "Reference", "Alternative", "Genotype", "Annotation"]

  /** The header names six columns, the genotype in column 4, and its
      genotype column is not a code, so relabelling it would change nothing. */
  lemma HeaderColumns()
    ensures |Header| == 6 && Header[GenotypeColumn] == "Genotype"
    ensures !IsGenotypeCode(Header[GenotypeColumn])
  {
  }

  /** The value written in every data column when no usable line was found. */
  const NotFound: string := "not found"

  // Fields of a VCF data line (0-based): CHROM POS ID REF ALT QUAL FILTER
  // INFO FORMAT, then one column per sample.
  const RefField: nat := 3
  const AltField: nat := 4
  const InfoField: nat := 7
  const SampleField: nat := 9
  const MinFields: nat := 10

  /** Column of a report row that holds the genotype. */
  const GenotypeColumn: nat := 4

  // ---------------------------------------------------------------------
  // Per-SNP rows
  // ---------------------------------------------------------------------

  /** The `description` of a SNP that the per-SNP progress message embeds:
      its id, followed by its alternate name in parentheses when it has one.
      The rest of the message and its printing are not modelled. */
  function Describe(snp: Snp): (d: string)
    ensures |d| >= |snp.id| && d[..|snp.id|] == snp.id
    ensures d == snp.id <==> snp.name == ""
    ensures snp.name != "" ==> (|d| == |snp.id| + |snp.name| + 3 &&
      d[|snp.id|..|snp.id| + 2] == " (" && d[|snp.id| + 2..|d| - 1] == snp.name && d[|d| - 1] == ')')
  {
    if snp.name != "" then snp.id + " (" + snp.name + ")" else snp.id
  }

  /** The row for a SNP without a usable data line: its id, its position
      and `not found` in all four data columns. The relabelling pass leaves
      it as it is. */
  function NotFoundRow(id: string, position: string): (row: seq<string>)
    ensures |row| == 6 && row[0] == id && row[1] == position
    ensures forall i :: 2 <= i < |row| ==> row[i] == NotFound
    ensures RelabelRow(row) == row
  {
    [id, position, NotFound, NotFound, NotFound, NotFound]
  }

  /** The report row for SNP `id` at `position`, given the text `content`
      that the filtered query printed. Only the first line counts; it is
      stripped and split on tabs, and a line of at least ten fields gives
      REF, ALT, the genotype (the first sample column up to its first `:`)
      and INFO. An empty output, a blank first line or a shorter line gives
      the "not found" row. */
  function BuildRow(id: string, position: string, content: string): (row: seq<string>)
    ensures |row| == |Header|
    ensures row[0] == id && row[1] == position
    ensures forall i :: 2 <= i < |row| ==> '\t' !in row[i]
    ensures ':' !in row[GenotypeColumn]
  {
    if content == [] then NotFoundRow(id, position)
    else
      var line := Strip(FirstLine(content));
      if line == [] then NotFoundRow(id, position)
      else
        var parts := Split(line, '\t');
        if |parts| >= MinFields then
          [id, position, parts[RefField], parts[AltField],
           PrefixBefore(parts[SampleField], ':'), parts[InfoField]]
        else NotFoundRow(id, position)
  }

  /** No output, or a first line of nothing but whitespace, gives the
      "not found" row. */
  lemma BuildRowBlank(id: string, position: string, content: string)
    requires forall k :: 0 <= k < |FirstLine(content)| ==> IsWhitespace(FirstLine(content)[k])
    ensures BuildRow(id, position, content) == NotFoundRow(id, position)
  {
    StripEmpty(FirstLine(content));
  }

  /** A stripped first line with fewer than nine tabs (so fewer than ten
      fields) gives the "not found" row. */
  lemma BuildRowFewFields(id: string, position: string, content: string)
    requires Count(Strip(FirstLine(content)), '\t') < MinFields - 1
    ensures BuildRow(id, position, content) == NotFoundRow(id, position)
  {
  }

  /** A well-formed data line: at least ten tab-separated fields, none of
      them holding a tab or a line break, not starting or ending with
      whitespace. */
  predicate IsRecord(fields: seq<string>) {
    |fields| >= MinFields &&
    (forall i :: 0 <= i < |fields| ==> '\t' !in fields[i]) &&
    (forall i, k :: 0 <= i < |fields| && 0 <= k < |fields[i]| ==> !IsLineBreak(fields[i][k])) &&
    fields[0] != [] && !IsWhitespace(fields[0][0]) &&
    fields[|fields| - 1] != [] && !IsWhitespace(fields[|fields| - 1][|fields[|fields| - 1]| - 1])
  }

  /** When the output starts with a well-formed data line, the row holds
      REF, ALT, the genotype prefix of the first sample column and INFO of
      that line, whatever follows it. */
  lemma BuildRowOfRecord(id: string, position: string, fields: seq<string>, rest: string)
    requires IsRecord(fields)
    requires rest == [] || IsLineBreak(rest[0])
    ensures BuildRow(id, position, Join(fields, '\t') + rest) ==
      [id, position, fields[RefField], fields[AltField],
       PrefixBefore(fields[SampleField], ':'), fields[InfoField]]
  {
    var line := Join(fields, '\t');
    JoinNoLineBreak(fields);
    FirstLineOfLine(line, rest);
    JoinEnd(fields, '\t');
    StripUnchanged(line);
    SplitJoin(fields, '\t');
  }

  /** Conversely, a row that is not the "not found" row was read from a data
      line of at least ten tab-free fields that is the stripped first line. */
  lemma BuildRowFound(id: string, position: string, content: string)
    requires Count(Strip(FirstLine(content)), '\t') >= MinFields - 1
    ensures exists fields :: (|fields| >= MinFields &&
      (forall i :: 0 <= i < |fields| ==> '\t' !in fields[i]) &&
      Join(fields, '\t') == Strip(FirstLine(content)) &&
      BuildRow(id, position, content) ==
        [id, position, fields[RefField], fields[AltField],
         PrefixBefore(fields[SampleField], ':'), fields[InfoField]])
  {
    var line := Strip(FirstLine(content));
    var fields := Split(line, '\t');
    JoinSplit(line, '\t');
  }

  lemma {:induction false} JoinNoLineBreak(fields: seq<string>)
    requires |fields| >= 1
    requires forall i, k :: 0 <= i < |fields| && 0 <= k < |fields[i]| ==> !IsLineBreak(fields[i][k])
    ensures forall k :: 0 <= k < |Join(fields, '\t')| ==> !IsLineBreak(Join(fields, '\t')[k])
  {
    if |fields| > 1 {
      JoinNoLineBreak(fields[1..]);
      var head := fields[0] + ['\t'];
      var tail := Join(fields[1..], '\t');
      assert Join(fields, '\t') == head + tail;
      forall k | 0 <= k < |head + tail| ensures !IsLineBreak((head + tail)[k]) {
        if k < |fields[0]| {
          assert (head + tail)[k] == fields[0][k];
        } else if k >= |head| {
          assert (head + tail)[k] == tail[k - |head|];
        }
      }
    }
  }

  /** The join ends with the last field. */
  lemma {:induction false} JoinEnd(fields: seq<string>, sep: char)
    requires |fields| >= 1 && fields[|fields| - 1] != []
    ensures |Join(fields, sep)| > 0
    ensures Join(fields, sep)[|Join(fields, sep)| - 1] == fields[|fields| - 1][|fields[|fields| - 1]| - 1]
  {
    if |fields| > 1 {
      JoinEnd(fields[1..], sep);
    }
  }

  /** The first line of a line followed by a line break (or by nothing) is
      that line. */
  lemma {:induction false} FirstLineOfLine(line: string, rest: string)
    requires forall k :: 0 <= k < |line| ==> !IsLineBreak(line[k])
    requires rest == [] || IsLineBreak(rest[0])
    ensures FirstLine(line + rest) == line
    decreases |line|
  {
    if line == [] {
      assert line + rest == rest;
    } else {
      assert (line + rest)[1..] == line[1..] + rest;
      FirstLineOfLine(line[1..], rest);
      assert [line[0]] + line[1..] == line;
    }
  }

  // ---------------------------------------------------------------------
  // Genotype labels
  // ---------------------------------------------------------------------

  /** The three genotype codes the report translates. */
  predicate IsGenotypeCode(g: string) {
    g == "0/0" || g == "0/1" || g == "1/1"
  }

  /** The label for a genotype code; any other value is kept as it is. */
  function MapGenotype(g: string): (r: string)
    ensures g == "0/0" ==> r == "Homozygous Reference"
    ensures g == "0/1" ==> r == "Heterozygous"
    ensures g == "1/1" ==> r == "Homozygous Alternate"
    ensures !IsGenotypeCode(g) ==> r == g
    ensures !IsGenotypeCode(r)
  {
    if g == "0/0" then "Homozygous Reference"
    else if g == "0/1" then "Heterozygous"
    else if g == "1/1" then "Homozygous Alternate"
    else g
  }

  /** Each code has its own label: translating loses no information. */
  lemma MapGenotypeInjective(a: string, b: string)
    requires IsGenotypeCode(a) && IsGenotypeCode(b)
    requires MapGenotype(a) == MapGenotype(b)
    ensures a == b
  {
  }

  /** A row with a genotype column gets that column translated; every other
      column, and every row without a genotype column, stays as it is. */
  function RelabelRow(row: seq<string>): (r: seq<string>)
    ensures |r| == |row|
    ensures forall i :: 0 <= i < |row| && i != GenotypeColumn ==> r[i] == row[i]
    ensures |row| > GenotypeColumn ==> r[GenotypeColumn] == MapGenotype(row[GenotypeColumn])
  {
    if |row| > GenotypeColumn then row[GenotypeColumn := MapGenotype(row[GenotypeColumn])] else row
  }

  /** Translating a row twice is translating it once. */
  lemma RelabelRowIdempotent(row: seq<string>)
    ensures RelabelRow(RelabelRow(row)) == RelabelRow(row)
  {
  }

  /** `out` is `report` after the relabelling pass: the header as it was,
      then every data row relabelled, in the same order. */
  ghost predicate IsRelabelling(report: seq<seq<string>>, out: seq<seq<string>>) {
    |out| == |report| >= 1 && out[0] == report[0] &&
    forall i :: 1 <= i < |report| ==> out[i] == RelabelRow(report[i])
  }

  /** The relabelling pass: reads the header, then relabels and appends each
      data row in turn. An empty report has no header to read, which the
      source does not survive; the result is then `None`. */
  method RelabelReport(report: seq<seq<string>>) returns (result: Option<seq<seq<string>>>)
    ensures result.None? <==> report == []
    ensures result.Some? ==> IsRelabelling(report, result.value)
  {
    if report == [] {
      return None;
    }
    var header := report[0];
    var rows: seq<seq<string>> := [];
    var i := 1;
    while i < |report|
      invariant 1 <= i <= |report|
      invariant |rows| == i - 1
      invariant forall k :: 0 <= k < |rows| ==> rows[k] == RelabelRow(report[k + 1])
    {
      var row := report[i];
      if |row| > GenotypeColumn {
        row := row[GenotypeColumn := MapGenotype(row[GenotypeColumn])];
      }
      rows := rows + [row];
      i := i + 1;
    }
    result := Some([header] + rows);
  }

  /** Running the pass on its own output changes nothing, because no label
      is itself a code. */
  lemma RelabelReportIdempotent(report: seq<seq<string>>, once: seq<seq<string>>, twice: seq<seq<string>>)
    requires IsRelabelling(report, once) && IsRelabelling(once, twice)
    ensures twice == once
  {
    forall i | 1 <= i < |once| ensures twice[i] == once[i] {
      RelabelRowIdempotent(report[i]);
    }
  }

  // ---------------------------------------------------------------------
  // The report
  // ---------------------------------------------------------------------

  /** First pass: the header, then one row per SNP in list order, each built
      from what the query prints for the SNP's position. */
  method WriteReport(snps: seq<Snp>, query: string -> string) returns (report: seq<seq<string>>)
    ensures |report| == |snps| + 1
    ensures report[0] == Header
    ensures forall i :: 0 <= i < |snps| ==>
      report[i + 1] == BuildRow(snps[i].id, snps[i].position, query(snps[i].position))
  {
    report := [Header];
    for i := 0 to |snps|
      invariant |report| == i + 1
      invariant report[0] == Header
      invariant forall k :: 0 <= k < i ==>
        report[k + 1] == BuildRow(snps[k].id, snps[k].position, query(snps[k].position))
    {
      var snp := snps[i];
      var row := BuildRow(snp.id, snp.position, query(snp.position));
      report := report + [row];
    }
  }

  /** Both passes over the known SNPs: the final report has the header and
      then, for each known SNP in order, its row with the genotype
      translated. */
  method AnalyseSnps(query: string -> string) returns (report: seq<seq<string>>)
    ensures |report| == |KnownSnps| + 1 && report[0] == Header
    ensures forall i :: 0 <= i < |KnownSnps| ==>
      report[i + 1] == RelabelRow(BuildRow(KnownSnps[i].id, KnownSnps[i].position, query(KnownSnps[i].position)))
  {
    var written := WriteReport(KnownSnps, query);
    var relabelled := RelabelReport(written);
    report := relabelled.value;
  }

  /** Every data row of the final report has six columns, and data row `i`
      names SNP `i - 1` and its position. */
  lemma ReportRowsIdentifySnps(snps: seq<Snp>, query: string -> string, report: seq<seq<string>>)
    requires |report| == |snps| + 1
    requires forall i :: 0 <= i < |snps| ==>
      report[i + 1] == RelabelRow(BuildRow(snps[i].id, snps[i].position, query(snps[i].position)))
    ensures forall i :: 1 <= i < |report| ==>
      |report[i]| == |Header| && report[i][0] == snps[i - 1].id && report[i][1] == snps[i - 1].position
  {
    forall i | 1 <= i < |report|
      ensures |report[i]| == |Header| && report[i][0] == snps[i - 1].id && report[i][1] == snps[i - 1].position
    {
      var row := BuildRow(snps[i - 1].id, snps[i - 1].position, query(snps[i - 1].position));
      assert report[i] == RelabelRow(row);
    }
  }

  /** After the second pass, a row read from a data line carries the label
      of that line's genotype. */
  lemma RelabelledRowOfRecord(id: string, position: string, fields: seq<string>, rest: string)
    requires IsRecord(fields)
    requires rest == [] || IsLineBreak(rest[0])
    ensures RelabelRow(BuildRow(id, position, Join(fields, '\t') + rest)) ==
      [id, position, fields[RefField], fields[AltField],
       MapGenotype(PrefixBefore(fields[SampleField], ':')), fields[InfoField]]
  {
    BuildRowOfRecord(id, position, fields, rest);
  }

  /** The data line `chr15 74749576 . A G 50 PASS ANN=xyz GT:DP 0/1:30`
      (tab-separated), as the query prints it for rs762551, gives the final
      row `rs762551, chr15:74749576, A, G, Heterozygous, ANN=xyz`. */
  // The fields come in as a parameter fixed by the requires: written as a
  // literal inside the ensures, the verifier unfolds Join and Split on it
  // without limit and runs out of resource.
  lemma HeterozygousExample(fields: seq<string>)
    requires fields == ["chr15", "74749576", ".", "A", "G", "50", "PASS", "ANN=xyz", "GT:DP", "0/1:30"]
    ensures RelabelRow(BuildRow("rs762551", "chr15:74749576", Join(fields, '\t') + "\n")) ==
      ["rs762551", "chr15:74749576", "A", "G", "Heterozygous", "ANN=xyz"]
  {
    assert IsRecord(fields);
    RelabelledRowOfRecord("rs762551", "chr15:74749576", fields, "\n");
    assert PrefixBefore("0/1:30", ':') == "0/1";
  }

  /** In the final report each known SNP has exactly one data row carrying
      its id: row `j + 1` and no other. */
  lemma EachKnownSnpOnce(query: string -> string, report: seq<seq<string>>)
    requires |report| == |KnownSnps| + 1
    requires forall i :: 0 <= i < |KnownSnps| ==>
      report[i + 1] == RelabelRow(BuildRow(KnownSnps[i].id, KnownSnps[i].position, query(KnownSnps[i].position)))
    ensures forall i :: 1 <= i < |report| ==> |report[i]| == |Header|
    ensures forall i, j :: 1 <= i < |report| && 0 <= j < |KnownSnps| ==>
      (report[i][0] == KnownSnps[j].id <==> i == j + 1)
  {
    ReportRowsIdentifySnps(KnownSnps, query, report);
    KnownSnpIds();
  }
}
