# Assembly_Annotation glue scripts in Dafny

This project models the text transforms of four glue scripts from a
genome-annotation pipeline and proves what they compute.

- **Isoform grouper** (`scripts/12.2_extract_isoforms.py`). The same code is
  the last step of `scripts/17.1_get_contigs_genes.py`, lines 88-103.
  - FASTA header lines that match `>(ice\d+[-\w]*)` give an isoform
    identifier. The identifier up to its first `-` is the gene.
  - `isoforms_dict`, a `defaultdict(list)`, collects each gene's isoforms in
    file order. One `;`-joined line is written per gene, with the genes in
    the order they first appear.
  - Module `Isoforms` (`isoforms.dfy`).
- **Contig gene filter** (`scripts/17.1_get_contigs_genes.py`, lines 27-77).
  - The first word of every line of a contig index names a selected contig.
  - The leading `#` lines of a GFF3 file are copied verbatim. Every row of at
    least three tab-separated fields whose contig is selected and whose
    feature is `gene` is rewritten through `csv.writer`.
  - A BED file's last column, cut at its first `-`, gives a set of gene
    identifiers. Every FASTA record of a listed gene is written under the
    gene identifier, with an empty description.
  - Module `ContigGenes` (`contig_genes.dfy`).
- **Clade colour assigner** (`scripts/08.2_extract_clade_colors_annotation.py`,
  repeated as `scripts/11.2_extract_clade_colors_annotation.py`).
  - The distinct clades of column 3 are listed in first-seen order.
  - The colour palette is shuffled in place. The clade at position `i` of
    that list gets the colour at position `i % len(colours)` of the shuffled
    palette.
  - Every row is written as `id colour clade`.
  - Module `CladeColours` (`clade_colours.dfy`).
- **Abundance extractor** (`scripts/08.3_extract_abundance.py`, repeated as
  `scripts/11.3_extract_abundance.py`).
  - Each line of an EDTA summary has its whitespace runs collapsed to one
    space and is stripped.
  - A line is data if it is non-empty and starts with none of `=`, `ID` and
    `total`. Data lines are split on spaces.
  - A four-column DataFrame is built from them, and its first two columns are
    written as CSV.
  - Module `Abundance` (`abundance.dfy`).

Three support modules complete the project:

- `Wrappers` holds `Option` and `Result`. A `Failure` carries the name of the
  Python exception the script would raise.
- `Seqs` holds distinctness, first occurrence and subsequence facts.
- `Text` holds the Python string operations the scripts use: `str.isspace`,
  `split(sep)`, `split()`, `split()[0]`, `strip`, `startswith` and `join`.

Files are modelled as sequences of lines, each line with its `\n` terminator
when it has one. This is what iterating over a file or calling `readlines()`
yields. Written files are modelled as the sequence of lines written.

Where the source changes state step by step, the model does too:

- the header copy, the GFF row loop, the FASTA loop, the isoform reading and
  writing loops, and the abundance classification loop are methods with
  `while` loops, proved against specification functions;
- `random.shuffle` works on an `array` in place.

The list comprehensions, the regular-expression match, the set and dictionary
comprehensions and the pandas steps are functions.

## Model

| member | source | states |
|---|---|---|
| Isoforms.MatchIsoform | scripts/12.2_extract_isoforms.py:43 | The pattern matches iff the line starts with `>ice` followed by a digit. The captured identifier is `ice`, a digit, then the longest following run of `[-\w]` characters, read straight after the `>`. |
| Isoforms.IdRun | scripts/12.2_extract_isoforms.py:43 | `[-\w]*` takes the longest prefix made of identifier characters and stops at the first character that is not one. |
| Isoforms.HeaderToken | scripts/12.2_extract_isoforms.py:41-44 | A line yields an isoform iff it starts with `>ice` and a digit. The isoform is an identifier (`ice`, a digit, then `[-\w]` characters) read straight after the `>`. |
| Isoforms.GeneKey | scripts/12.2_extract_isoforms.py:46 | The gene holds no `-`. It is the isoform's text before its first `-`: the body is `Text.PrefixBefore`, whose contract says so. |
| Isoforms.HeaderOf | scripts/12.2_extract_isoforms.py:42-45 | A line `>` + identifier + a tail that does not continue the identifier yields exactly that identifier. |
| Isoforms.GroupIsoforms | scripts/12.2_extract_isoforms.py:37-47 | The loop builds the dictionary's keys in insertion order: the distinct genes in first-appearance order. Its keys are exactly those genes, and each gene's list is exactly that gene's identifiers in file order. |
| Isoforms.GroupStepOld | scripts/12.2_extract_isoforms.py:46-47 | Appending to the list of a gene that is already a key keeps the key order. Every list stays that gene's identifiers so far. |
| Isoforms.GroupStepNew | scripts/12.2_extract_isoforms.py:46-47 | The first identifier of a new gene adds that gene as the last key, with a one-element list. Every other list is unchanged. |
| Isoforms.ExtractIsoforms | scripts/12.2_extract_isoforms.py:37-52 | The file written has one line per gene, in key order, and each line is that gene's list joined by `;` plus `\n`. |
| Isoforms.IsoformLines | scripts/12.2_extract_isoforms.py:50-52 | There are never more lines than isoforms read, and no line is written exactly when no header matched. |
| Isoforms.IsoformsOfAbsent | scripts/12.2_extract_isoforms.py:46-47 | A gene that no identifier has collects nothing. |
| Isoforms.IsoformsOfCounts | scripts/12.2_extract_isoforms.py:46-47 | A gene's list holds each identifier of that gene as often as the file does, duplicates included, and no other identifier. |
| Isoforms.IsoformsOfMembers | scripts/12.2_extract_isoforms.py:46-47 | An identifier is in gene `g`'s list iff it occurs in the file and its gene is `g`. |
| Isoforms.IsoformsInFileOrder | scripts/12.2_extract_isoforms.py:40-47 | A gene's list is a subsequence of the file's identifiers: file order is kept. |
| Isoforms.GroupsNonEmpty | scripts/12.2_extract_isoforms.py:50-52 | A gene's list is non-empty iff the gene is a key, so no written line is an empty group. |
| Isoforms.GroupsPartition | scripts/12.2_extract_isoforms.py:37-52 | The lists, concatenated in key order, are a permutation of all identifiers read. Every isoform is written exactly once. |
| Isoforms.TokensAreIds | scripts/12.2_extract_isoforms.py:42-47 | Every collected identifier starts with `ice` and a digit and consists of `[-\w]` characters. |
| Isoforms.GeneKeyShape | scripts/12.2_extract_isoforms.py:46-47 | A gene key is a prefix of each isoform in its list, contains no `-`, and starts with `ice` followed by a digit. |
| Isoforms.LinesReadBack | scripts/12.2_extract_isoforms.py:50-52 | Each written line ends in `\n`, and split on `;` it gives back exactly its gene's list. |
| Isoforms.DocumentedExample | scripts/12.2_extract_isoforms.py:11-16 | For every gene identifier: headers `>gene-RA protein` and `>gene-RB`, a sequence line and a `>gene17` header give the single line `gene-RA;gene-RB`. |
| Isoforms.ExampleIsoform | scripts/12.2_extract_isoforms.py:11-20 | A header `>gene-suffix` followed by a non-identifier character yields the isoform `gene-suffix` of gene `gene`. |
| Isoforms.OtherLines | scripts/12.2_extract_isoforms.py:42-45 | A sequence line and a header without the `ice` prefix contribute nothing. |
| Isoforms.TwoIsoformsOneGene | scripts/12.2_extract_isoforms.py:37-52 | Two matching headers of one gene, with two non-matching lines around them, give one line listing both isoforms in file order. |
| Isoforms.SingleGene | scripts/12.2_extract_isoforms.py:37-52 | When the file has at least one isoform header and all of them share one gene, exactly one line is written, and it lists every isoform of the file in file order. |
| Isoforms.AllOfGene | scripts/12.2_extract_isoforms.py:46-47 | Appending every token of one gene to its list keeps them all, in order. |
| Isoforms.OneKey | scripts/12.2_extract_isoforms.py:51 | A key list repeating one gene has that gene as its only dictionary key. |
| ContigGenes.ContigNames | scripts/17.1_get_contigs_genes.py:27-28 | The contig names are the first word of every index line, one per line. The result is an `IndexError` iff some line is blank. |
| ContigGenes.HeaderLength | scripts/17.1_get_contigs_genes.py:37-41 | The header is the longest run of leading lines that start with `#`: each of them does, and the next line does not. |
| ContigGenes.CopyHeader | scripts/17.1_get_contigs_genes.py:37-41 | The loop copies exactly the leading `#` lines, verbatim, and stops at the first other line. |
| ContigGenes.CsvRow | scripts/17.1_get_contigs_genes.py:33 | `csv.reader` with a tab delimiter yields fields that contain no tab. A line that is empty once its `\n` is removed yields an empty row. Any other line yields at least one field, and the fields joined by tabs give back the line without its `\n`. |
| ContigGenes.Rows | scripts/17.1_get_contigs_genes.py:42-45 | After `gff.seek(0)` the reader yields one row per line of the file, header lines included. |
| ContigGenes.GeneRows | scripts/17.1_get_contigs_genes.py:45-51 | The filter never keeps more rows than it reads. Which rows it keeps is `GeneRowsExactly`. |
| ContigGenes.FilterGeneRows | scripts/17.1_get_contigs_genes.py:42-51 | After rewinding, the row loop writes one line per row that has at least 3 fields, a selected contig in column 0 and `gene` in column 2, in file order. |
| ContigGenes.GeneRowsExactly | scripts/17.1_get_contigs_genes.py:45-51 | A row is written iff it is a row of the file that passes the test. |
| ContigGenes.GeneRowsInOrder | scripts/17.1_get_contigs_genes.py:45-51 | The written rows are a subsequence of the file's rows. |
| ContigGenes.GeneRowsIdempotent | scripts/17.1_get_contigs_genes.py:45-51 | Filtering the written rows again changes nothing. |
| ContigGenes.CommentRowStartsWithHash | scripts/17.1_get_contigs_genes.py:42-45 | After `gff.seek(0)` the header lines are read again as rows, and their first field starts with `#`. |
| ContigGenes.CommentRowsDropped | scripts/17.1_get_contigs_genes.py:42-51 | When no selected contig starts with `#`, no written row comes from a comment line. Every written row has at least 3 fields. |
| ContigGenes.RowLine | scripts/17.1_get_contigs_genes.py:51 | A row written by `csv.writer` starts with its first field and ends in `\r\n`. |
| ContigGenes.RowLineReadsBack | scripts/17.1_get_contigs_genes.py:34-51 | A row written by `csv.writer` ends in `\r\n`, and split on tabs it gives back the same fields. |
| ContigGenes.GenesInContigs | scripts/17.1_get_contigs_genes.py:27-51 | The output file is the header block followed by the written gene rows. The step fails iff reading the contig names fails. |
| ContigGenes.BedGeneId | scripts/17.1_get_contigs_genes.py:66 | The gene of a BED line contains no `-`. |
| ContigGenes.BedGeneIdOfLastField | scripts/17.1_get_contigs_genes.py:66 | The gene of a BED line is a prefix of the stripped line's last tab field, and is the whole field when that field has no `-`. |
| ContigGenes.GeneIds | scripts/17.1_get_contigs_genes.py:65-66 | No identifier in the gene set contains `-`. |
| ContigGenes.GeneIdsExactly | scripts/17.1_get_contigs_genes.py:66 | An identifier is in the gene set iff some BED line's last field, cut at its first `-`, is that identifier. |
| ContigGenes.Relabel | scripts/17.1_get_contigs_genes.py:72-76 | A written record's id is the original id cut at its first `-`. Its description is empty, and its sequence is unchanged. |
| ContigGenes.FilterProteins | scripts/17.1_get_contigs_genes.py:69-77 | The loop writes, in input order, the relabelled record of every record whose gene is in the set. |
| ContigGenes.KeptProteins | scripts/17.1_get_contigs_genes.py:70-77 | One record is written per selected input record. |
| ContigGenes.SelectedRecordsExactly | scripts/17.1_get_contigs_genes.py:70-73 | A record is written iff it is in the input and its gene is in the set. Input order is kept. |
| ContigGenes.KeptProteinsExactly | scripts/17.1_get_contigs_genes.py:70-77 | Every written record names a listed gene, has no `-` in its id and has an empty description, and is the relabelling of an input record. Every input record of a listed gene is written. |
| ContigGenes.GeneProteins | scripts/17.1_get_contigs_genes.py:64-77 | The protein step end to end: the BED file gives the set, and the FASTA loop writes the records of listed genes. |
| ContigGenes.ProteinExample | scripts/17.1_get_contigs_genes.py:70-77 | A record `geneA-p1` of a listed gene is written as `geneA` with no description. A record of an unlisted gene is dropped. |
| CladeColours.Clades | scripts/08.2_extract_clade_colors_annotation.py:43 | Column 3 holds one clade per row. |
| CladeColours.UniqueCladesListed | scripts/08.2_extract_clade_colors_annotation.py:43 | `unique()` lists every clade of column 3 exactly once, and nothing else, in order of first appearance. |
| CladeColours.Swap | scripts/08.2_extract_clade_colors_annotation.py:47 | One exchange of the shuffle swaps two positions and leaves the others unchanged. |
| CladeColours.Shuffled | scripts/08.2_extract_clade_colors_annotation.py:47 | The shuffled palette has as many colours as the palette. |
| CladeColours.SwapPermutes | scripts/08.2_extract_clade_colors_annotation.py:47 | An exchange keeps the multiset of colours. |
| CladeColours.SwapsDownPermutes | scripts/08.2_extract_clade_colors_annotation.py:47 | Any number of the shuffle's exchanges keeps the multiset of colours. |
| CladeColours.ShuffledPermutes | scripts/08.2_extract_clade_colors_annotation.py:47 | The shuffled palette is a permutation of the palette, whatever the random draws. |
| CladeColours.Shuffle | scripts/08.2_extract_clade_colors_annotation.py:47 | `random.shuffle` works in place. For the given draws, the array ends up as the Fisher–Yates exchanges from the last position down to position 1. |
| CladeColours.ShuffledNoDups | scripts/08.2_extract_clade_colors_annotation.py:47 | Shuffling a palette without repeated colours leaves it without repeats. |
| CladeColours.ColourMap | scripts/08.2_extract_clade_colors_annotation.py:50 | The dictionary's keys are exactly the unique clades, and clade number `i` maps to `colours[i % len(colours)]`. |
| CladeColours.ColoursFromPalette | scripts/08.2_extract_clade_colors_annotation.py:50 | Every clade gets a colour from the palette. |
| CladeColours.ColoursWrapAround | scripts/08.2_extract_clade_colors_annotation.py:49-50 | With more clades than colours, clade `i` and clade `i + len(colours)` share a colour. |
| CladeColours.ColoursDistinct | scripts/08.2_extract_clade_colors_annotation.py:45-50 | Different clades get different colours when there are no more clades than colours and the palette has no repeats. |
| CladeColours.AliasedColoursCoincide | scripts/08.2_extract_clade_colors_annotation.py:45-50 | With a palette that spells one colour twice, as CSS4 does for `aqua` and `cyan`, two different clades can get the same colour. |
| CladeColours.Annotate | scripts/08.2_extract_clade_colors_annotation.py:53-58 | The output frame has one row per input row. |
| CladeColours.AnnotationsConsistent | scripts/08.2_extract_clade_colors_annotation.py:50-58 | Every row is written in input order with its own id and clade. Its colour is the palette entry at its clade's first-seen rank modulo the palette size, so rows of one clade share a colour. |
| CladeColours.AnnotationLine | scripts/08.2_extract_clade_colors_annotation.py:61 | A written line starts with the row's id and a space, and ends in `\n`. |
| CladeColours.AnnotationLineReadsBack | scripts/08.2_extract_clade_colors_annotation.py:61 | A written line ends in `\n`, and split on spaces it gives back id, colour and clade. |
| CladeColours.AnnotationFile | scripts/08.2_extract_clade_colors_annotation.py:53-61 | One output line per input row. |
| CladeColours.CladeAnnotation | scripts/08.2_extract_clade_colors_annotation.py:38-61 | A table without column 3 raises `IndexError` before the palette is touched. Otherwise the palette is shuffled in place and the file is the annotation of every row with the shuffled palette. |
| Abundance.Collapse | scripts/08.3_extract_abundance.py:39 | `re.sub(r'\s+', ' ', ·)` never makes a line longer. |
| Abundance.CollapseShape | scripts/08.3_extract_abundance.py:39 | After `re.sub(r'\s+', ' ', ·)` the only whitespace left is single spaces. The result starts with a space iff the line started with whitespace, and is empty iff the line was. |
| Abundance.NormaliseShape | scripts/08.3_extract_abundance.py:39 | A processed line has no whitespace but single spaces, and no space at either end. |
| Abundance.Normalise | scripts/08.3_extract_abundance.py:39 | A processed line is never longer than the raw line. |
| Abundance.NormaliseWords | scripts/08.3_extract_abundance.py:39 | For every line, the processed line is `' '.join(line.split())`: the line's words, in order, with one space between each two. |
| Abundance.SplitNormalised | scripts/08.3_extract_abundance.py:39-46 | For every non-blank line, `split(' ')` of the processed line gives exactly `line.split()`. A data row's fields are the raw line's words. |
| Abundance.NormaliseIdempotent | scripts/08.3_extract_abundance.py:39 | Normalising a processed line again leaves it unchanged. |
| Abundance.CollapseWord | scripts/08.3_extract_abundance.py:39 | A run of non-whitespace characters passes through the substitution unchanged. |
| Abundance.CollapseRun | scripts/08.3_extract_abundance.py:39 | A whitespace run before a word becomes one space. |
| Abundance.StripLeftRun | scripts/08.3_extract_abundance.py:39 | Stripping on the left removes exactly the leading whitespace run. |
| Abundance.CollapseFixed | scripts/08.3_extract_abundance.py:39 | A single-spaced text is a fixed point of the substitution. |
| Abundance.NormaliseKeepsWord | scripts/08.3_extract_abundance.py:39-45 | A line starting with a word still starts with that word after normalisation, so the prefix tests see the raw line's first word. |
| Abundance.NormaliseFourFields | scripts/08.3_extract_abundance.py:39 | A line of four words separated by any whitespace runs, with or without trailing whitespace such as `\n`, becomes the words joined by single spaces. |
| Abundance.ProcessedNormalised | scripts/08.3_extract_abundance.py:39 | Every processed line has that shape. |
| Abundance.IsDataLine | scripts/08.3_extract_abundance.py:45 | The filter on processed lines. What it does to the lines of the table is stated by `Abundance.PrefixedLineDropped` (a raw line starting with `=`, `ID` or `total` is dropped once normalised) and `Abundance.DataLineOfFirstWord` (a line whose first word is a non-empty word starting with none of them is kept, whatever follows). |
| Abundance.DataLineExamples | scripts/08.3_extract_abundance.py:45 | The prefix tests are literal and case-sensitive: `Total …` is data and `IDx …` is not. |
| Abundance.PrefixedLineDropped | scripts/08.3_extract_abundance.py:39-45 | A raw line that starts with `=`, `ID` or `total` is never a data line. |
| Abundance.DataLineOfFirstWord | scripts/08.3_extract_abundance.py:45 | A line whose first word passes the tests passes them too: the tests cannot reach past the first word. |
| Abundance.CollectData | scripts/08.3_extract_abundance.py:42-46 | The loop appends `line.split(' ')` for exactly the data lines, in order. |
| Abundance.DataRows | scripts/08.3_extract_abundance.py:42-46 | One row per data line, each with at least one field. |
| Abundance.DataLinesExactly | scripts/08.3_extract_abundance.py:43-46 | A processed line is kept iff it passes the tests. The kept lines keep their relative order. |
| Abundance.DataFieldsNonEmpty | scripts/08.3_extract_abundance.py:39-46 | Splitting a kept line on `' '` gives only non-empty fields. |
| Abundance.MaxWidth | scripts/08.3_extract_abundance.py:51 | The width pandas pads to is the widest row: every row is at most that wide, and some row has that width. |
| Abundance.Frame | scripts/08.3_extract_abundance.py:50-56 | Building the frame raises `ValueError` iff there are rows and either some row has more than four fields or every row has fewer. Otherwise each row keeps its first field as `ID`, and its second as `Count` when it has one (missing otherwise). |
| Abundance.CsvFile | scripts/08.3_extract_abundance.py:56-59 | The CSV has the header `ID,Count` and then one line per row, with no index column. |
| Abundance.CsvLine | scripts/08.3_extract_abundance.py:56-59 | A written row starts with its ID and a comma, and ends in `\n`. |
| Abundance.CsvLineReadsBack | scripts/08.3_extract_abundance.py:59 | A written line ends in `\n`, and split on `,` it gives back ID and Count when neither holds a comma. |
| Abundance.ExtractAbundance | scripts/08.3_extract_abundance.py:35-59 | The whole script: the processed lines' data rows go through the frame, and either the CSV of ID and Count is written or pandas' `ValueError` is raised. |
| Abundance.AbundanceFile | scripts/08.3_extract_abundance.py:50-59 | The result is either pandas' `ValueError`, or the header `ID,Count` followed by exactly one line per data line. |
| Abundance.SummaryExample | scripts/08.3_extract_abundance.py:39-59 | A separator line, the column header, one data line of four whitespace-separated words and a `total` line give the file `ID,Count` plus that line's `ID,Count`. |
| Abundance.OneRowFile | scripts/08.3_extract_abundance.py:50-59 | A single four-field row gives a one-row frame, written as the header and `id,count`. |
| Text.SplitOnJoin | scripts/17.1_get_contigs_genes.py:66 | Fields without the separator, joined by it and split on it again, come back unchanged. |
| Text.JoinSplitOn | scripts/17.1_get_contigs_genes.py:66 | Splitting on a character and joining with it gives the text back. |
| Text.SplitOn | scripts/08.3_extract_abundance.py:46 | `split(sep)` gives at least one field, and no field holds the separator. The first field is the text before the first separator, or the whole text. |
| Text.PrefixBefore | scripts/17.1_get_contigs_genes.py:72 | `split('-')[0]` is the longest prefix without `-`: it is followed by `-` or is the whole text. |
| Text.WordsAreWords | scripts/17.1_get_contigs_genes.py:28 | Every element of `split()` is a non-empty run of non-whitespace characters. |
| Text.WordsFirst | scripts/17.1_get_contigs_genes.py:28 | `split()` is empty iff the line is blank. Otherwise its first element is `split()[0]`. |
| Text.FirstToken | scripts/17.1_get_contigs_genes.py:28 | `split()[0]` is missing exactly for a blank line. Otherwise it is the first whitespace-free word after the leading whitespace. |
| Text.Strip | scripts/17.1_get_contigs_genes.py:66 | `strip()` gives the piece between the leading and trailing whitespace. That piece neither starts nor ends with whitespace. |
| Text.SplitFieldsNonEmpty | scripts/08.3_extract_abundance.py:46 | A text that neither starts nor ends with the separator, and never repeats it, splits into non-empty fields. |
| Seqs.Distinct | scripts/08.2_extract_clade_colors_annotation.py:43 | `unique()` has no repeats, holds exactly the values of the column, and is no longer than it. |
| Seqs.DistinctFirstSeen | scripts/08.2_extract_clade_colors_annotation.py:43 | Distinct values are listed in order of first occurrence. |
| Seqs.NoDupsCounts | scripts/08.2_extract_clade_colors_annotation.py:47 | A list has no repeats iff every element occurs at most once in its multiset. |

## Left out

- File I/O, paths and `print` are not modelled. Input files are sequences of
  lines, output files are the sequences of lines written, and the printed
  diagnostics have no behavioural content.
- Unicode classes are not modelled. `\d` and `\w` in `>(ice\d+[-\w]*)` are
  taken over ASCII, while Python's `str` patterns also match non-ASCII
  digits and letters. `\s` and `strip()` use the full `str.isspace` set.
- Biopython's FASTA parsing and writing are not modelled. A record is the
  value `FastaRecord(id, description, sequence)` that `SeqIO.parse`
  produces. Writing is modelled as the sequence of relabelled records, not
  as wrapped FASTA text. The in-place update of `record.id` and
  `record.description` is modelled as a value update.
- `pd.read_csv(sep=' ', header=0)` is not modelled. The clade table arrives
  as a header and rectangular rows of fields, and `astype(str)` is the
  identity on it.
- CSV quoting and dialects are not modelled. The model splits and joins
  fields as plain text.
  - `csv.reader` starts a quoted field only where a field begins with `"`.
    A `"` anywhere else in a field is read as it is.
  - `csv.writer` quotes a field that holds `"`, a tab, `\r` or `\n`. A field
    from the tab split of one line can hold only the `"`.
  - The abundance `to_csv` writes with `,` and quotes a field that holds `,`,
    `"` or a line break. Fields from `split(' ')` can hold `,` and `"`.
  - The clade `to_csv` writes with a space. The id and clade come from
    `read_csv(sep=' ')` and hold no space. The colour is a CSS4 hex string,
    which holds neither a space nor a `"`. So only a `"` in an id or clade
    would be written differently.
- Abundance.CsvLine: writes the ID and the Count bare. pandas would quote
  either of them when it holds a `,` or a `"`, so such a row is written
  differently.
- The contents of matplotlib's `CSS4_COLORS` are not modelled. The palette is
  a parameter, and its aliases are covered only by the example in
  `AliasedColoursCoincide`.
- CladeColours.CladeAnnotation: requires a non-empty palette, because
  `CSS4_COLORS` is never empty. With an empty palette and at least one clade
  the source would raise `ZeroDivisionError`.
- CladeColours.CladeAnnotation: the randomness of `random.shuffle` is a
  parameter. The draws are the values `_randbelow(i + 1)` returns, and
  `ValidDraws` says which draws are possible.
- pandas dtype inference, `NaN` handling and display formatting are not
  modelled. The abundance frame holds only strings, and a missing `Count` of
  a short row is written as an empty field.
- Abundance.Frame: takes its rows already split, so it requires every row to
  have a field. `str.split(' ')` always yields at least one field.
- Line terminators other than `\n` are not modelled. A `\r\n` line read by
  `csv.reader` would lose its `\r` in Python, while the model keeps it in the
  last field.
- ContigGenes.GenesInContigs: mixed terminators in the output are modelled,
  not normalised. Copied header lines keep their own `\n`, and rows written
  by `csv.writer` end in `\r\n` (`newline=''` is passed to `open`).
