/** The genespace preparation of scripts/17.1_get_contigs_genes.py, without
    its isoform step (module Isoforms): the gene rows of the selected contigs
    are copied out of a GFF3 file, and the protein records of the genes listed
    in a BED file are copied out of a FASTA file under their gene identifier. */
module ContigGenes {
  import opened Wrappers
  import opened Seqs
  import opened Text

  /** The exception `line.split()[0]` raises on a blank line. */
  const BlankLineError := "IndexError"

  /** `[line.split()[0] for line in f]`: the first word of every line of the
      contig index, or the error the first blank line raises. */
  function ContigNames(lines: seq<string>): (r: Result<seq<string>>)
    ensures r.Failure? <==> exists i :: 0 <= i < |lines| && FirstToken(lines[i]).None?
    ensures r.Success? ==>
      && |r.value| == |lines|
      && forall i :: 0 <= i < |lines| ==> FirstToken(lines[i]) == Some(r.value[i])
  {
    if forall i | 0 <= i < |lines| :: FirstToken(lines[i]).Some? then
      Success(seq(|lines|, i requires 0 <= i < |lines| => FirstToken(lines[i]).value))
    else
      Failure(BlankLineError)
  }

  /** The number of leading lines that start with `#`. */
  function HeaderLength(gff: seq<string>): (n: nat)
    ensures n <= |gff|
    ensures forall k :: 0 <= k < n ==> StartsWith(gff[k], "#")
    ensures n == |gff| || !StartsWith(gff[n], "#")
  {
    if |gff| == 0 || !StartsWith(gff[0], "#") then 0 else 1 + HeaderLength(gff[1..])
  }

  /** The header loop: lines are copied verbatim while they start with `#`,
      and the first other line ends the loop. */
  method CopyHeader(gff: seq<string>) returns (header: seq<string>)
    ensures header == gff[..HeaderLength(gff)]
  {
    header := [];
    var i := 0;
    while i < |gff| && StartsWith(gff[i], "#")
      invariant i <= |gff|
      invariant forall k :: 0 <= k < i ==> StartsWith(gff[k], "#")
      invariant header == gff[..i]
    {
      header := header + [gff[i]];
      i := i + 1;
    }
  }

  /** The fields `csv.reader(gff, delimiter='\t')` yields for one line: an
      empty line is an empty row, any other line is split at every tab. */
  function CsvRow(line: string): (row: seq<string>)
    ensures forall k :: 0 <= k < |row| ==> '\t' !in row[k]
    ensures Chomp(line) == "" ==> row == []
    ensures Chomp(line) != "" ==> |row| >= 1 && Join(row, "\t") == Chomp(line)
  {
    var l := Chomp(line);
    if l == "" then []
    else
      JoinSplitOn(l, '\t');
      SplitOn(l, '\t')
  }

  /** The rows of the whole file, the header lines among them (`gff.seek(0)`
      rereads the file from its start). */
  function Rows(lines: seq<string>): (rows: seq<seq<string>>)
    ensures |rows| == |lines|
  {
    seq(|lines|, i requires 0 <= i < |lines| => CsvRow(lines[i]))
  }

  /** The row test: at least 3 fields, column 0 a selected contig and column 2
      the feature type `gene`. */
  predicate IsSelectedGene(row: seq<string>, contigs: seq<string>) {
    |row| >= 3 && row[0] in contigs && row[2] == "gene"
  }

  /** The rows that pass the test, in file order. */
  function GeneRows(rows: seq<seq<string>>, contigs: seq<string>): (r: seq<seq<string>>)
    ensures |r| <= |rows|
  {
    if |rows| == 0 then []
    else
      var row := rows[|rows| - 1];
      GeneRows(rows[..|rows| - 1], contigs) + (if IsSelectedGene(row, contigs) then [row] else [])
  }

  /** The row loop: short rows are skipped, the others are written when they
      pass the test. */
  method FilterGeneRows(gff: seq<string>, contigs: seq<string>) returns (written: seq<string>)
    ensures written == RowLines(GeneRows(Rows(gff), contigs))
  {
    written := [];
    ghost var kept: seq<seq<string>> := [];
    var i := 0;
    while i < |gff|
      invariant i <= |gff|
      invariant kept == GeneRows(Rows(gff)[..i], contigs)
      invariant written == RowLines(kept)
    {
      GeneRowsStep(Rows(gff), i, contigs);
      var row := CsvRow(gff[i]);
      if |row| < 3 {
        i := i + 1;
        continue;
      }
      if row[0] in contigs && row[2] == "gene" {
        RowLinesAppend(kept, row);
        written := written + [RowLine(row)];
        kept := kept + [row];
      }
      i := i + 1;
    }
    assert Rows(gff)[..i] == Rows(gff);
  }

  /** The filter, one row further. */
  lemma GeneRowsStep(rows: seq<seq<string>>, i: nat, contigs: seq<string>)
    requires i < |rows|
    ensures GeneRows(rows[..i + 1], contigs) ==
      GeneRows(rows[..i], contigs) + (if IsSelectedGene(rows[i], contigs) then [rows[i]] else [])
  {
    assert rows[..i + 1][..i] == rows[..i];
  }

  /** A kept row passes the test, and a row passing the test is kept: the
      filter is exactly the test. */
  lemma {:induction false} GeneRowsExactly(rows: seq<seq<string>>, contigs: seq<string>)
    ensures forall row :: row in GeneRows(rows, contigs) <==> row in rows && IsSelectedGene(row, contigs)
  {
    if |rows| > 0 {
      GeneRowsExactly(rows[..|rows| - 1], contigs);
      assert rows == rows[..|rows| - 1] + [rows[|rows| - 1]];
    }
  }

  /** Kept rows keep their file order. */
  lemma {:induction false} GeneRowsInOrder(rows: seq<seq<string>>, contigs: seq<string>)
    ensures IsSubsequence(GeneRows(rows, contigs), rows)
  {
    if |rows| > 0 {
      var r0, x := rows[..|rows| - 1], rows[|rows| - 1];
      GeneRowsInOrder(r0, contigs);
      var k := GeneRows(r0, contigs);
      if IsSelectedGene(x, contigs) {
        var a := k + [x];
        assert GeneRows(rows, contigs) == a;
        assert a[..|a| - 1] == k && a[|a| - 1] == rows[|rows| - 1];
        assert IsSubsequence(a[..|a| - 1], rows[..|rows| - 1]);
      } else {
        assert GeneRows(rows, contigs) == k;
        assert IsSubsequence(k, rows[..|rows| - 1]);
      }
    }
  }

  /** Filtering the kept rows again keeps all of them. */
  lemma {:induction false} GeneRowsIdempotent(rows: seq<seq<string>>, contigs: seq<string>)
    ensures GeneRows(GeneRows(rows, contigs), contigs) == GeneRows(rows, contigs)
  {
    if |rows| > 0 {
      var r0, x := rows[..|rows| - 1], rows[|rows| - 1];
      GeneRowsIdempotent(r0, contigs);
      var k := GeneRows(r0, contigs);
      if IsSelectedGene(x, contigs) {
        var a := k + [x];
        assert GeneRows(rows, contigs) == a;
        assert a[..|a| - 1] == k && a[|a| - 1] == x;
      } else {
        assert GeneRows(rows, contigs) == k;
      }
    }
  }

  /** The reread header lines go through the same test: when no selected
      contig starts with `#`, no kept row comes from a comment line. */
  lemma CommentRowsDropped(gff: seq<string>, contigs: seq<string>)
    requires forall c :: c in contigs ==> !StartsWith(c, "#")
    ensures forall row :: row in GeneRows(Rows(gff), contigs) ==> |row| >= 3 && !StartsWith(row[0], "#")
  {
    GeneRowsExactly(Rows(gff), contigs);
  }

  /** A comment line is a row like any other: its first field starts with `#`. */
  lemma CommentRowStartsWithHash(line: string)
    requires StartsWith(line, "#")
    ensures |CsvRow(line)| > 0 && StartsWith(CsvRow(line)[0], "#")
  {
    var l := Chomp(line);
    assert l[0] == '#';
    assert SplitOn(l, '\t')[0][0] == '#';
  }

  /** `csv.writer(out, delimiter='\t').writerow(row)`: the fields joined by
      tabs and the writer's default `\r\n` terminator. */
  function RowLine(row: seq<string>): (line: string)
    ensures |line| >= 2 && line[|line| - 2..] == "\r\n"
    ensures row != [] ==> StartsWith(line, row[0])
  {
    Join(row, "\t") + "\r\n"
  }

  /** A written row reads back as the same fields. */
  lemma RowLineReadsBack(row: seq<string>)
    requires |row| >= 1
    requires forall k :: 0 <= k < |row| ==> '\t' !in row[k]
    ensures var line := RowLine(row);
      && |line| >= 2 && line[|line| - 2..] == "\r\n"
      && SplitOn(line[..|line| - 2], '\t') == row
  {
    var line := RowLine(row);
    assert line[..|line| - 2] == Join(row, ['\t']);
    SplitOnJoin(row, '\t');
  }

  /** The written rows, one line each. */
  function RowLines(rows: seq<seq<string>>): (lines: seq<string>)
    ensures |lines| == |rows|
  {
    seq(|rows|, i requires 0 <= i < |rows| => RowLine(rows[i]))
  }

  /** One more written row is one more line. */
  lemma RowLinesAppend(rows: seq<seq<string>>, row: seq<string>)
    ensures RowLines(rows + [row]) == RowLines(rows) + [RowLine(row)]
  {
  }

  /** The GFF output file: the header block, then the kept rows. */
  function GeneFeatureFile(gff: seq<string>, contigs: seq<string>): seq<string> {
    gff[..HeaderLength(gff)] + RowLines(GeneRows(Rows(gff), contigs))
  }

  /** Steps 1 and 2 of the script: read the contig names, then write the
      header block and the gene rows of those contigs. */
  method GenesInContigs(contigIndex: seq<string>, gff: seq<string>) returns (out: Result<seq<string>>)
    ensures out.Failure? <==> ContigNames(contigIndex).Failure?
    ensures out.Success? ==> out.value == GeneFeatureFile(gff, ContigNames(contigIndex).value)
  {
    var names := ContigNames(contigIndex);
    if names.Failure? {
      return Failure(names.error);
    }
    var header := CopyHeader(gff);
    var rowLines := FilterGeneRows(gff, names.value);
    out := Success(header + rowLines);
  }

  /** A FASTA record as Biopython parses it. */
  datatype FastaRecord = FastaRecord(id: string, description: string, sequence: string)

  /** `line.strip().split("\t")[-1].split("-")[0]`: the gene of a BED line. */
  function BedGeneId(line: string): (g: string)
    ensures '-' !in g
  {
    PrefixBefore(Last(SplitOn(Strip(line), '\t')), '-')
  }

  /** The gene of a BED line is the start of its last field, cut at the first
      `-`; a last field without `-` is the gene whole. */
  lemma BedGeneIdOfLastField(line: string)
    ensures var last := Last(SplitOn(Strip(line), '\t'));
      && StartsWith(last, BedGeneId(line))
      && ('-' !in last ==> BedGeneId(line) == last)
  {
    var last := Last(SplitOn(Strip(line), '\t'));
    if '-' !in last {
      SplitOnFree(last, '-');
    }
  }

  /** `gene_ids`, the set comprehension over the BED lines. */
  function GeneIds(bed: seq<string>): (ids: set<string>)
    ensures forall g :: g in ids ==> '-' !in g
  {
    set i | 0 <= i < |bed| :: BedGeneId(bed[i])
  }

  /** A gene is in the set iff some BED line names it. */
  lemma GeneIdsExactly(bed: seq<string>, g: string)
    ensures g in GeneIds(bed) <==> exists i :: 0 <= i < |bed| && BedGeneId(bed[i]) == g
  {
  }

  /** `record.id.split("-")[0]` */
  function RecordGene(r: FastaRecord): string {
    PrefixBefore(r.id, '-')
  }

  /** The record as it is written: the id cut to the gene, no description. */
  function Relabel(r: FastaRecord): (w: FastaRecord)
    ensures w.id == RecordGene(r) && '-' !in w.id
    ensures w.description == "" && w.sequence == r.sequence
  {
    r.(id := RecordGene(r), description := "")
  }

  /** The records whose gene is listed, in input order. */
  function SelectedRecords(records: seq<FastaRecord>, ids: set<string>): seq<FastaRecord> {
    if |records| == 0 then []
    else
      var r := records[|records| - 1];
      SelectedRecords(records[..|records| - 1], ids) + (if RecordGene(r) in ids then [r] else [])
  }

  /** Selection, one record further. */
  lemma SelectedAppend(records: seq<FastaRecord>, r: FastaRecord, ids: set<string>)
    ensures SelectedRecords(records + [r], ids) ==
      SelectedRecords(records, ids) + (if RecordGene(r) in ids then [r] else [])
  {
    assert (records + [r])[..|records|] == records;
  }

  /** The written records. */
  function KeptProteins(records: seq<FastaRecord>, ids: set<string>): (out: seq<FastaRecord>)
    ensures |out| == |SelectedRecords(records, ids)|
  {
    var sel := SelectedRecords(records, ids);
    seq(|sel|, i requires 0 <= i < |sel| => Relabel(sel[i]))
  }

  /** The FASTA loop: a record of a listed gene is relabelled and written,
      any other is skipped. */
  method FilterProteins(records: seq<FastaRecord>, ids: set<string>) returns (out: seq<FastaRecord>)
    ensures out == KeptProteins(records, ids)
  {
    out := [];
    ghost var sel: seq<FastaRecord> := [];
    var i := 0;
    while i < |records|
      invariant i <= |records|
      invariant sel == SelectedRecords(records[..i], ids)
      invariant |out| == |sel| && forall k :: 0 <= k < |sel| ==> out[k] == Relabel(sel[k])
    {
      assert records[..i + 1][..i] == records[..i];
      var record := records[i];
      var geneId := PrefixBefore(record.id, '-');
      if geneId in ids {
        record := record.(id := geneId);
        record := record.(description := "");
        out := out + [record];
        sel := sel + [records[i]];
      }
      i := i + 1;
    }
    assert records[..i] == records;
  }

  /** Selection keeps exactly the records of listed genes, in input order. */
  lemma {:induction false} SelectedRecordsExactly(records: seq<FastaRecord>, ids: set<string>)
    ensures forall r :: r in SelectedRecords(records, ids) <==> r in records && RecordGene(r) in ids
    ensures IsSubsequence(SelectedRecords(records, ids), records)
  {
    if |records| > 0 {
      var r0, x := records[..|records| - 1], records[|records| - 1];
      SelectedRecordsExactly(r0, ids);
      assert records == r0 + [x];
      var s := SelectedRecords(r0, ids);
      if RecordGene(x) in ids {
        var a := s + [x];
        assert SelectedRecords(records, ids) == a;
        assert a[..|a| - 1] == s && a[|a| - 1] == records[|records| - 1];
        assert IsSubsequence(a[..|a| - 1], records[..|records| - 1]);
      } else {
        assert SelectedRecords(records, ids) == s;
        assert IsSubsequence(s, records[..|records| - 1]);
      }
    }
  }

  /** Every written record names a listed gene, has no `-` in its id, an empty
      description and the sequence of the record it came from; a record of a
      listed gene is written. */
  lemma KeptProteinsExactly(records: seq<FastaRecord>, ids: set<string>)
    ensures forall w :: w in KeptProteins(records, ids) ==>
      && w.id in ids && '-' !in w.id && w.description == ""
      && exists r :: r in records && Relabel(r) == w
    ensures forall r :: r in records && RecordGene(r) in ids ==> Relabel(r) in KeptProteins(records, ids)
  {
    SelectedRecordsExactly(records, ids);
    var sel := SelectedRecords(records, ids);
    var out := KeptProteins(records, ids);
    forall w | w in out
      ensures w.id in ids && exists r :: r in records && Relabel(r) == w
    {
      var k :| 0 <= k < |out| && out[k] == w;
      assert sel[k] in sel;
    }
    forall r | r in records && RecordGene(r) in ids
      ensures Relabel(r) in out
    {
      var k :| 0 <= k < |sel| && sel[k] == r;
      assert out[k] == Relabel(r);
    }
  }

  /** The protein step end to end: the BED file gives the gene set, the FASTA
      records are filtered against it. */
  method GeneProteins(bed: seq<string>, records: seq<FastaRecord>) returns (out: seq<FastaRecord>)
    ensures out == KeptProteins(records, GeneIds(bed))
  {
    out := FilterProteins(records, GeneIds(bed));
  }

  /** A record `geneA-p1` is kept as `geneA` with an empty description when
      `geneA` is listed, and `geneB-p1` is dropped, for any gene names and
      suffixes without `-`. */
  lemma ProteinExample(geneA: string, geneB: string, p1: string, p2: string, desc: string, seqA: string, seqB: string)
    requires '-' !in geneA && '-' !in geneB && geneA != geneB
    ensures KeptProteins([FastaRecord(geneA + "-" + p1, desc, seqA), FastaRecord(geneB + "-" + p2, "", seqB)], {geneA})
         == [FastaRecord(geneA, "", seqA)]
  {
    var a, b := FastaRecord(geneA + "-" + p1, desc, seqA), FastaRecord(geneB + "-" + p2, "", seqB);
    SplitOnSeparated(geneA, p1, '-');
    SplitOnSeparated(geneB, p2, '-');
    assert RecordGene(a) == geneA && RecordGene(b) == geneB;
    SelectedAppend([], a, {geneA});
    SelectedAppend([a], b, {geneA});
    assert [] + [a] == [a] && [a] + [b] == [a, b];
  }
}
