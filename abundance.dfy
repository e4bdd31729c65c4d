/** The TE abundance extractor of scripts/08.3_extract_abundance.py (repeated
    as scripts/11.3_extract_abundance.py): every line of an EDTA summary is
    whitespace-normalised, the data lines are split into fields, pandas builds
    a four-column table from them, and the ID and Count columns are written
    as CSV. */
module Abundance {
  import opened Wrappers
  import opened Seqs
  import opened Text

  /** `re.sub(r'\s+', ' ', s)`: every maximal run of whitespace becomes one
      space. */
  function Collapse(s: string): (r: string)
    ensures |r| <= |s|
    decreases |s|
  {
    if |s| == 0 then ""
    else if IsSpace(s[0]) then
      var rest := StripLeft(s);
      assert |rest| < |s|;
      " " + Collapse(rest)
    else
      [s[0]] + Collapse(s[1..])
  }

  /** What is left after collapsing: no whitespace but single spaces, and a
      leading space exactly where the text started with whitespace. */
  lemma {:induction false} CollapseShape(s: string)
    ensures var r := Collapse(s);
      && SingleSpaced(r)
      && ((|r| > 0 && r[0] == ' ') <==> (|s| > 0 && IsSpace(s[0])))
      && (|r| == 0 <==> |s| == 0)
    decreases |s|
  {
    if |s| > 0 {
      if IsSpace(s[0]) {
        var rest := StripLeft(s);
        CollapseShape(rest);
        var c := Collapse(rest);
        assert Collapse(s) == " " + c;
        assert c == [] || c[0] != ' ';
        SingleSpacedCons(' ', c);
      } else {
        var c := Collapse(s[1..]);
        CollapseShape(s[1..]);
        assert Collapse(s) == [s[0]] + c;
        SingleSpacedCons(s[0], c);
      }
    }
  }

  /** A word character, or a space before no space, extends a single-spaced
      text. */
  lemma SingleSpacedCons(x: char, c: string)
    requires SingleSpaced(c)
    requires !IsSpace(x) || (x == ' ' && (c == [] || c[0] != ' '))
    ensures SingleSpaced([x] + c)
  {
    var r := [x] + c;
    assert forall k :: 1 <= k < |r| ==> r[k] == c[k - 1];
  }

  /** No whitespace but the space, and never two spaces in a row. */
  predicate SingleSpaced(s: string) {
    && (forall k :: 0 <= k < |s| && IsSpace(s[k]) ==> s[k] == ' ')
    && (forall k :: 0 <= k < |s| - 1 ==> !(s[k] == ' ' && s[k + 1] == ' '))
  }

  /** Any piece of a single-spaced text is single-spaced. */
  lemma SingleSpacedSlice(s: string, a: int, b: int)
    requires SingleSpaced(s) && 0 <= a <= b <= |s|
    ensures SingleSpaced(s[a..b])
  {
    var t := s[a..b];
    assert forall k :: 0 <= k < |t| ==> t[k] == s[a + k];
  }

  /** A line as the script leaves it: only single spaces, none at either end. */
  predicate Normalised(s: string) {
    SingleSpaced(s) && (s == [] || (s[0] != ' ' && s[|s| - 1] != ' '))
  }

  /** `re.sub(r'\s+', ' ', line).strip()` */
  function Normalise(line: string): (t: string)
    ensures |t| <= |line|
  {
    Strip(Collapse(line))
  }

  /** Every line comes out of normalisation with single spaces only and none
      at either end. */
  lemma NormaliseShape(line: string)
    ensures Normalised(Normalise(line))
  {
    CollapseShape(line);
    StripSingleSpaced(Collapse(line));
    NormaliseUnfold(line);
  }

  /** Stripping a single-spaced text leaves it single-spaced, with no space
      at either end. */
  lemma StripSingleSpaced(c: string)
    requires SingleSpaced(c)
    ensures Normalised(StripRight(StripLeft(c)))
  {
    var l := StripLeft(c);
    var t := StripRight(l);
    StripLeftSingleSpaced(c);
    StripRightSingleSpaced(l);
    assert t == [] || t[0] == l[0];
  }

  /** `lstrip` keeps a text single-spaced. */
  lemma StripLeftSingleSpaced(c: string)
    requires SingleSpaced(c)
    ensures SingleSpaced(StripLeft(c))
  {
    SingleSpacedSlice(c, |c| - |StripLeft(c)|, |c|);
  }

  /** `rstrip` keeps a text single-spaced. */
  lemma StripRightSingleSpaced(l: string)
    requires SingleSpaced(l)
    ensures SingleSpaced(StripRight(l))
  {
    SingleSpacedSlice(l, 0, |StripRight(l)|);
  }

  /** Whitespace inside a word-free prefix changes nothing. */
  lemma {:induction false} CollapseWord(w: string, rest: string)
    requires forall k :: 0 <= k < |w| ==> !IsSpace(w[k])
    ensures Collapse(w + rest) == w + Collapse(rest)
  {
    if |w| > 0 {
      CollapseWord(w[1..], rest);
      ConsSplit(w, rest);
      CollapseCons(w[0], w[1..] + rest);
      ConsSplit(w, Collapse(rest));
    } else {
      EmptyAppend(w, rest);
      EmptyAppend(w, Collapse(rest));
    }
  }

  /** A non-whitespace character is kept as it is. */
  lemma CollapseCons(x: char, s: string)
    requires !IsSpace(x)
    ensures Collapse([x] + s) == [x] + Collapse(s)
  {
    assert ([x] + s)[1..] == s;
  }

  /** A whitespace run followed by a word becomes one space. */
  lemma CollapseRun(sp: string, rest: string)
    requires |sp| > 0 && forall k :: 0 <= k < |sp| ==> IsSpace(sp[k])
    requires rest == [] || !IsSpace(rest[0])
    ensures Collapse(sp + rest) == " " + Collapse(rest)
  {
    StripLeftRun(sp, rest);
  }

  /** `lstrip` removes exactly a leading whitespace run. */
  lemma {:induction false} StripLeftRun(sp: string, rest: string)
    requires forall k :: 0 <= k < |sp| ==> IsSpace(sp[k])
    requires rest == [] || !IsSpace(rest[0])
    ensures StripLeft(sp + rest) == rest
  {
    if |sp| > 0 {
      StripLeftRun(sp[1..], rest);
      ConsSplit(sp, rest);
      StripLeftSpace(sp[0], sp[1..] + rest);
    } else {
      EmptyAppend(sp, rest);
    }
  }

  /** `lstrip` drops a leading whitespace character. */
  lemma StripLeftSpace(x: char, s: string)
    requires IsSpace(x)
    ensures StripLeft([x] + s) == StripLeft(s)
  {
    assert ([x] + s)[1..] == s;
  }

  /** A normalised line has no whitespace run left to collapse. */
  lemma {:induction false} CollapseFixed(t: string)
    requires SingleSpaced(t)
    ensures Collapse(t) == t
  {
    if |t| > 0 {
      var t1 := t[1..];
      SingleSpacedSlice(t, 1, |t|);
      CollapseFixed(t1);
      if IsSpace(t[0]) {
        StripLeftRun([t[0]], t1);
        assert [t[0]] + t1 == t;
      }
    }
  }

  /** Normalising twice is normalising once. */
  lemma NormaliseIdempotent(line: string)
    ensures Normalise(Normalise(line)) == Normalise(line)
  {
    var t := Normalise(line);
    NormaliseShape(line);
    CollapseFixed(t);
    CollapseShape(t);
    assert StripLeft(t) == t;
    assert StripRight(t) == t;
  }

  /** A line that starts with a word starts, normalised, with the same word:
      the prefix tests below see the raw line's first characters. */
  lemma NormaliseKeepsWord(w: string, rest: string)
    requires |w| > 0 && forall k :: 0 <= k < |w| ==> !IsSpace(w[k])
    ensures StartsWith(Normalise(w + rest), w)
  {
    CollapseWord(w, rest);
    var c := w + Collapse(rest);
    assert StripLeft(c) == c;
    var t := StripRight(c);
    assert c[|w| - 1] == w[|w| - 1];
    assert |t| >= |w|;
    assert t[..|w|] == c[..|w|];
  }

  /** `re.sub(r'\s+', ' ', line).strip()` is `' '.join(line.split())`: the
      words of the line, in order, one space between each two. */
  lemma {:induction false} NormaliseWords(line: string)
    ensures Normalise(line) == Join(Words(line), " ")
    decreases |line|
  {
    var t := StripLeft(line);
    if t == [] {
      BlankNormalise(line);
    } else {
      var w := TakeWord(t);
      var rest := t[|w|..];
      WordsStep(line);
      FirstWordCollapse(line);
      NormaliseWords(rest);
      if Words(rest) == [] {
        LastWord(w, rest);
      } else {
        TailWords(w, rest);
      }
    }
  }

  /** A blank line normalises to the empty line. */
  lemma BlankNormalise(s: string)
    requires StripLeft(s) == []
    ensures Normalise(s) == ""
  {
    BlankCollapse(s);
    OneSpaceStrips();
  }

  /** `' '.strip()` is empty. */
  lemma OneSpaceStrips()
    ensures StripLeft(" ") == []
  {
    assert " "[1..] == [];
  }

  /** The first word of a line starts its normalisation, and the text after
      the word is normalised on its own. */
  lemma FirstWordCollapse(line: string)
    requires StripLeft(line) != []
    ensures var t := StripLeft(line);
      Normalise(line) == StripRight(TakeWord(t) + Collapse(t[|TakeWord(t)|..]))
  {
    var t := StripLeft(line);
    var sp := line[..|line| - |t|];
    var w := TakeWord(t);
    var rest := t[|w|..];
    assert sp + t == line by { TakeDrop(line, |line| - |t|); }
    assert w + rest == t by { TakeDrop(t, |w|); }
    assert StripLeft(Collapse(line)) == Collapse(t) by { LeadCollapse(sp, t); }
    assert Collapse(t) == w + Collapse(rest) by { CollapseWord(w, rest); }
    NormaliseUnfold(line);
  }

  /** `strip` is `lstrip`, then `rstrip`. */
  lemma NormaliseUnfold(line: string)
    ensures Normalise(line) == StripRight(StripLeft(Collapse(line)))
  {
  }

  /** The last word of a line: the blank rest of the line is dropped. */
  lemma LastWord(w: string, rest: string)
    requires IsWord(w) && Words(rest) == []
    ensures StripRight(w + Collapse(rest)) == Join([w] + Words(rest), " ")
  {
    WordsFirst(rest);
    StripLeftRun(rest, "");
    assert rest + "" == rest;
    BlankCollapse(rest);
    StripRightBlank(w, Collapse(rest));
    assert StripRight(w) == w;
    assert [w] + Words(rest) == [w];
  }

  /** A word followed by more words: one space, then the normalised rest. */
  lemma TailWords(w: string, rest: string)
    requires IsWord(w) && Words(rest) != []
    requires rest == [] || IsSpace(rest[0])
    requires Normalise(rest) == Join(Words(rest), " ")
    ensures StripRight(w + Collapse(rest)) == Join([w] + Words(rest), " ")
  {
    var c2 := GapCollapse(rest);
    AppendAssoc(w, " ", c2);
    StripRightAppend(w + " ", c2);
    JoinCons(w, Words(rest));
  }

  /** A whitespace run followed by a word: one space, then a text that `lstrip`
      leaves alone and `rstrip` does not empty. */
  lemma GapCollapse(rest: string) returns (c2: string)
    requires Words(rest) != []
    requires rest == [] || IsSpace(rest[0])
    ensures Collapse(rest) == " " + c2
    ensures Normalise(rest) == StripRight(c2) && StripRight(c2) != []
  {
    WordsFirst(rest);
    var r2 := StripLeft(rest);
    assert r2 != [];
    c2 := Collapse(r2);
    assert Collapse(rest) == " " + c2;
    WordCollapse(r2);
    StripLeftRun(" ", c2);
  }

  /** `' '.join` of two or more words. */
  lemma JoinCons(w: string, ws: seq<string>)
    requires ws != []
    ensures Join([w] + ws, " ") == w + " " + Join(ws, " ")
  {
    assert ([w] + ws)[1..] == ws;
  }

  /** A blank text collapses to nothing or to one space. */
  lemma BlankCollapse(s: string)
    requires StripLeft(s) == []
    ensures Collapse(s) == "" || Collapse(s) == " "
  {
  }

  /** A whitespace run before a word collapses to at most one space, which
      `lstrip` then removes. */
  lemma LeadCollapse(sp: string, t: string)
    requires forall k :: 0 <= k < |sp| ==> IsSpace(sp[k])
    requires t != [] && !IsSpace(t[0])
    ensures StripLeft(Collapse(sp + t)) == Collapse(t)
  {
    WordCollapse(t);
    if sp == [] {
      EmptyAppend(sp, t);
    } else {
      CollapseRun(sp, t);
      StripLeftRun(" ", Collapse(t));
    }
  }

  /** A text that starts with a word character collapses to a text that
      starts with it, which `lstrip` leaves alone. */
  lemma WordCollapse(t: string)
    requires t != [] && !IsSpace(t[0])
    ensures Collapse(t) != [] && Collapse(t)[0] == t[0]
    ensures StripLeft(Collapse(t)) == Collapse(t)
  {
    CollapseCons(t[0], t[1..]);
    assert t == [t[0]] + t[1..];
  }

  /** The fields of a non-blank normalised line are `line.split()`. */
  lemma SplitNormalised(line: string)
    requires Words(line) != []
    ensures SplitOn(Normalise(line), ' ') == Words(line)
  {
    NormaliseWords(line);
    WordsAreWords(line);
    forall k | 0 <= k < |Words(line)|
      ensures ' ' !in Words(line)[k]
    {
      WordHasNoBlank(Words(line)[k]);
    }
    SplitOnJoin(Words(line), ' ');
  }

  /** The literal prefix tests: a line is data iff it is not empty and starts
      with none of `=`, `ID` and `total`. */
  predicate IsDataLine(t: string)
    ensures IsDataLine(t) <==> t != "" && forall p :: p in SkippedPrefixes ==> !StartsWith(t, p)
  {
    t != "" && !StartsWith(t, "=") && !StartsWith(t, "ID") && !StartsWith(t, "total")
  }

  /** The prefixes of the lines that are not data: the framing rules, the
      column header and the totals line. */
  const SkippedPrefixes: seq<string> := ["=", "ID", "total"]

  /** The tests are case-sensitive and literal: `Total` is data, `IDx` is not. */
  lemma DataLineExamples()
    ensures IsDataLine("Total 4 100 0.1")
    ensures !IsDataLine("IDx 4 100 0.1")
  {
    assert "Total 4 100 0.1"[0] != "total"[0];
    assert "IDx 4 100 0.1"[..2] == "ID";
  }

  /** `processed_lines`: every line normalised. */
  function ProcessedLines(lines: seq<string>): (p: seq<string>)
    ensures |p| == |lines|
  {
    seq(|lines|, i requires 0 <= i < |lines| => Normalise(lines[i]))
  }

  /** Every processed line is normalised. */
  lemma ProcessedNormalised(lines: seq<string>)
    ensures forall i :: 0 <= i < |lines| ==> Normalised(ProcessedLines(lines)[i])
  {
    forall i | 0 <= i < |lines|
      ensures Normalised(ProcessedLines(lines)[i])
    {
      NormaliseShape(lines[i]);
    }
  }

  /** The data lines, in order. */
  function DataLines(p: seq<string>): seq<string> {
    if |p| == 0 then []
    else
      var t := p[|p| - 1];
      DataLines(p[..|p| - 1]) + (if IsDataLine(t) then [t] else [])
  }

  /** The fields of each data line: `line.split(' ')`. */
  function DataRows(p: seq<string>): (data: seq<seq<string>>)
    ensures |data| == |DataLines(p)|
    ensures forall i :: 0 <= i < |data| ==> |data[i]| >= 1
  {
    var d := DataLines(p);
    seq(|d|, i requires 0 <= i < |d| => SplitOn(d[i], ' '))
  }

  /** The classification loop: data lines are split and appended. */
  method CollectData(p: seq<string>) returns (data: seq<seq<string>>)
    ensures data == DataRows(p)
  {
    data := [];
    ghost var kept: seq<string> := [];
    var i := 0;
    while i < |p|
      invariant i <= |p|
      invariant kept == DataLines(p[..i])
      invariant |data| == |kept| && forall k :: 0 <= k < |kept| ==> data[k] == SplitOn(kept[k], ' ')
    {
      assert p[..i + 1][..i] == p[..i];
      var line := p[i];
      if line != "" && !StartsWith(line, "=") && !StartsWith(line, "ID") && !StartsWith(line, "total") {
        data := data + [SplitOn(line, ' ')];
        kept := kept + [line];
      }
      i := i + 1;
    }
    assert p[..i] == p;
  }

  /** The data lines are exactly the lines passing the tests, in order. */
  lemma {:induction false} DataLinesExactly(p: seq<string>)
    ensures forall t :: t in DataLines(p) <==> t in p && IsDataLine(t)
    ensures IsSubsequence(DataLines(p), p)
  {
    if |p| > 0 {
      var p0, x := p[..|p| - 1], p[|p| - 1];
      DataLinesExactly(p0);
      assert p == p0 + [x];
      var d := DataLines(p0);
      if IsDataLine(x) {
        var a := d + [x];
        assert DataLines(p) == a;
        assert a[..|a| - 1] == d && a[|a| - 1] == p[|p| - 1];
        assert IsSubsequence(a[..|a| - 1], p[..|p| - 1]);
      } else {
        assert DataLines(p) == d;
        assert IsSubsequence(d, p[..|p| - 1]);
      }
    }
  }

  /** Every field of every data row is non-empty: normalisation leaves no
      empty field between two spaces or at either end. */
  lemma DataFieldsNonEmpty(lines: seq<string>)
    ensures var data := DataRows(ProcessedLines(lines));
      forall i, k :: 0 <= i < |data| && 0 <= k < |data[i]| ==> data[i][k] != ""
  {
    var p := ProcessedLines(lines);
    var d := DataLines(p);
    DataLinesExactly(p);
    forall i | 0 <= i < |d|
      ensures forall k :: 0 <= k < |SplitOn(d[i], ' ')| ==> SplitOn(d[i], ' ')[k] != ""
    {
      assert d[i] in d;
      var j :| 0 <= j < |p| && p[j] == d[i];
      NormaliseShape(lines[j]);
      DataLineFields(d[i]);
    }
  }

  /** A normalised data line splits on spaces into non-empty fields. */
  lemma DataLineFields(t: string)
    requires Normalised(t) && t != ""
    ensures forall k :: 0 <= k < |SplitOn(t, ' ')| ==> SplitOn(t, ' ')[k] != ""
  {
    SplitFieldsNonEmpty(t, ' ');
  }

  /** Columns passed to the DataFrame constructor. */
  const Columns: seq<string> := ["ID", "Count", "bpMasked", "%masked"]

  /** The exception pandas raises when the rows are not 4 wide. */
  const ShapeError := "ValueError"

  /** The widest row. */
  function MaxWidth(data: seq<seq<string>>): (w: nat)
    ensures forall i :: 0 <= i < |data| ==> |data[i]| <= w
    ensures |data| > 0 ==> exists i :: 0 <= i < |data| && |data[i]| == w
    ensures |data| == 0 ==> w == 0
  {
    if |data| == 0 then 0
    else
      var w0 := MaxWidth(data[..|data| - 1]);
      var last := |data[|data| - 1]|;
      assert forall i :: 0 <= i < |data| - 1 ==> data[i] == data[..|data| - 1][i];
      if last > w0 then last else w0
  }

  /** The two kept columns of one table row; a short row is padded with
      missing values, and a missing Count is written as an empty field. */
  datatype AbundanceRow = AbundanceRow(id: string, count: Option<string>)

  /** `pd.DataFrame(data, columns=Columns).iloc[:, [0, 1]]`: the rows are
      padded to the widest, which must be exactly as wide as `Columns`. */
  function Frame(data: seq<seq<string>>): (r: Result<seq<AbundanceRow>>)
    requires forall i :: 0 <= i < |data| ==> |data[i]| >= 1
    ensures r.Failure? <==>
      |data| > 0 && ((exists i :: 0 <= i < |data| && |data[i]| > |Columns|)
                    || forall i :: 0 <= i < |data| ==> |data[i]| < |Columns|)
    ensures r.Success? ==>
      && |r.value| == |data|
      && forall i :: 0 <= i < |data| ==>
           && r.value[i].id == data[i][0]
           && (r.value[i].count.Some? <==> |data[i]| >= 2)
           && (r.value[i].count.Some? ==> r.value[i].count.value == data[i][1])
  {
    if |data| > 0 && MaxWidth(data) != |Columns| then Failure(ShapeError)
    else
      Success(seq(|data|, i requires 0 <= i < |data| && |data[i]| >= 1 =>
        AbundanceRow(data[i][0], if |data[i]| >= 2 then Some(data[i][1]) else None)))
  }

  /** `to_csv(index=False)` of one row. */
  function CsvLine(r: AbundanceRow): (line: string)
    ensures |line| >= 2 && line[|line| - 1] == '\n'
    ensures StartsWith(line, r.id + ",")
  {
    r.id + "," + r.count.GetOr("") + "\n"
  }

  /** The output file: the header, then one line per row. */
  function CsvFile(rows: seq<AbundanceRow>): (lines: seq<string>)
    ensures |lines| == |rows| + 1 && lines[0] == "ID,Count\n"
    ensures forall i :: 0 <= i < |rows| ==> lines[i + 1] == CsvLine(rows[i])
  {
    ["ID,Count\n"] + seq(|rows|, i requires 0 <= i < |rows| => CsvLine(rows[i]))
  }

  /** A written row reads back as its two fields when they hold no comma. */
  lemma CsvLineReadsBack(r: AbundanceRow)
    requires ',' !in r.id && ',' !in r.count.GetOr("")
    ensures var line := CsvLine(r);
      && line[|line| - 1] == '\n'
      && SplitOn(line[..|line| - 1], ',') == [r.id, r.count.GetOr("")]
  {
    var line := CsvLine(r);
    var fields := [r.id, r.count.GetOr("")];
    assert line[..|line| - 1] == Join(fields, [',']);
    SplitOnJoin(fields, ',');
  }

  /** The abundance file for the lines of a summary, or the error pandas
      raises. */
  function AbundanceFile(lines: seq<string>): (out: Result<seq<string>>)
    ensures out.Failure? ==> out.error == ShapeError
    ensures out.Success? ==>
      && |out.value| == |DataLines(ProcessedLines(lines))| + 1
      && out.value[0] == "ID,Count\n"
  {
    var frame := Frame(DataRows(ProcessedLines(lines)));
    if frame.Failure? then Failure(frame.error) else Success(CsvFile(frame.value))
  }

  /** The whole script over the lines of the summary. */
  method ExtractAbundance(lines: seq<string>) returns (out: Result<seq<string>>)
    ensures out == AbundanceFile(lines)
  {
    var processed := ProcessedLines(lines);
    var data := CollectData(processed);
    var frame := Frame(data);
    if frame.Failure? {
      return Failure(frame.error);
    }
    out := Success(CsvFile(frame.value));
  }

  /** A non-empty run of whitespace characters. */
  predicate IsGap(sp: string) {
    |sp| > 0 && forall k :: 0 <= k < |sp| ==> IsSpace(sp[k])
  }

  /** A word holds no space. */
  lemma WordHasNoBlank(w: string)
    requires IsWord(w)
    ensures ' ' !in w
  {
  }

  /** A word, a whitespace run, then the rest of the line: the run becomes
      one space. */
  lemma CollapseWordGap(w: string, sp: string, rest: string)
    requires IsWord(w) && IsGap(sp)
    requires rest == [] || !IsSpace(rest[0])
    ensures Collapse(w + sp + rest) == w + " " + Collapse(rest)
  {
    AppendAssoc(w, sp, rest);
    CollapseWord(w, sp + rest);
    CollapseRun(sp, rest);
    AppendAssoc(w, " ", Collapse(rest));
  }

  /** The last word of a line and the whitespace after it, if any: the
      trailing run becomes one space. */
  lemma CollapseLastWord(w: string, end: string)
    requires IsWord(w) && (end == [] || IsGap(end))
    ensures Collapse(w + end) == w + (if end == [] then "" else " ")
  {
    assert Collapse("") == "";
    if end == [] {
      CollapseWord(w, "");
      assert w + "" == w;
    } else {
      CollapseWordGap(w, end, "");
      assert w + end + "" == w + end;
    }
  }

  /** The collapsing half of `NormaliseFourFields`. */
  lemma CollapseFourFields(id: string, count: string, bp: string, pct: string,
                           sp1: string, sp2: string, sp3: string, end: string)
    requires IsWord(id) && IsWord(count) && IsWord(bp) && IsWord(pct)
    requires IsGap(sp1) && IsGap(sp2) && IsGap(sp3) && (end == [] || IsGap(end))
    ensures Collapse(id + sp1 + count + sp2 + bp + sp3 + pct + end)
         == id + " " + (count + " " + (bp + " " + pct)) + (if end == [] then "" else " ")
  {
    var r4 := pct + end;
    var r3 := bp + sp3 + r4;
    var r2 := count + sp2 + r3;
    assert id + sp1 + count + sp2 + bp + sp3 + pct + end == id + sp1 + r2;
    CollapseLastWord(pct, end);
    assert r4[0] == pct[0];
    CollapseWordGap(bp, sp3, r4);
    assert r3[0] == bp[0];
    CollapseWordGap(count, sp2, r3);
    assert r2[0] == count[0];
    CollapseWordGap(id, sp1, r2);
  }

  /** A line that collapses to a text without whitespace at either end,
      perhaps followed by one space, normalises to that text. */
  lemma NormaliseCollapsed(line: string, t: string, tail: string)
    requires t != [] && !IsSpace(t[0]) && !IsSpace(t[|t| - 1])
    requires tail == "" || tail == " "
    requires Collapse(line) == t + tail
    ensures Normalise(line) == t
  {
    var c := t + tail;
    assert c[0] == t[0];
    assert StripLeft(c) == c;
    assert c[..|t|] == t;
    if tail != "" {
      assert c[..|c| - 1] == t;
    }
    assert StripRight(t) == t;
  }

  /** Four fields joined with single spaces. */
  lemma JoinFour(a: string, b: string, c: string, d: string)
    ensures Join([a, b, c, d], " ") == a + " " + (b + " " + (c + " " + d))
  {
    assert [c, d][1..] == [d];
    assert Join([c, d], " ") == c + " " + d;
    assert [b, c, d][1..] == [c, d];
    assert Join([b, c, d], " ") == b + " " + (c + " " + d);
    assert [a, b, c, d][1..] == [b, c, d];
  }

  /** A report line of four words separated by whitespace runs, with or
      without trailing whitespace such as its line terminator, normalises to
      the words separated by single spaces. */
  lemma NormaliseFourFields(id: string, count: string, bp: string, pct: string,
                            sp1: string, sp2: string, sp3: string, end: string)
    requires IsWord(id) && IsWord(count) && IsWord(bp) && IsWord(pct)
    requires IsGap(sp1) && IsGap(sp2) && IsGap(sp3) && (end == [] || IsGap(end))
    ensures Normalise(id + sp1 + count + sp2 + bp + sp3 + pct + end)
         == Join([id, count, bp, pct], " ")
  {
    CollapseFourFields(id, count, bp, pct, sp1, sp2, sp3, end);
    JoinFour(id, count, bp, pct);
    var t := id + " " + (count + " " + (bp + " " + pct));
    assert t[0] == id[0];
    assert t[|t| - 1] == pct[|pct| - 1];
    NormaliseCollapsed(id + sp1 + count + sp2 + bp + sp3 + pct + end, t,
                       if end == [] then "" else " ");
  }

  /** A data line that begins with a word stays data when the rest of the
      line follows it after a space: the prefix tests cannot reach past it. */
  lemma DataLineOfFirstWord(id: string, rest: string)
    requires IsWord(id) && IsDataLine(id)
    ensures IsDataLine(id + " " + rest)
  {
    var t := id + " " + rest;
    assert t[0] == id[0];
    assert t[|id|] == ' ';
    if |id| >= 2 {
      assert t[..2] == id[..2];
    }
    if |id| >= 5 {
      assert t[..5] == id[..5];
    }
  }

  /** A line that starts with one of the three rejected prefixes is dropped. */
  lemma PrefixedLineDropped(line: string, prefix: string)
    requires prefix == "=" || prefix == "ID" || prefix == "total"
    requires StartsWith(line, prefix)
    ensures !IsDataLine(Normalise(line))
  {
    assert IsWord(prefix);
    assert line == prefix + line[|prefix|..];
    NormaliseKeepsWord(prefix, line[|prefix|..]);
  }

  /** Among four lines only the third is data: it is the one row. */
  lemma OnlyThirdIsData(p: seq<string>)
    requires |p| == 4
    requires !IsDataLine(p[0]) && !IsDataLine(p[1]) && IsDataLine(p[2]) && !IsDataLine(p[3])
    ensures DataLines(p) == [p[2]]
  {
    assert p[..3][..2][..1][..0] == [];
    assert DataLines(p[..3][..2][..1]) == [];
    assert DataLines(p[..3][..2]) == [];
    assert DataLines(p[..3]) == [p[2]];
  }

  /** Four words joined with single spaces split back into the four words. */
  lemma FourFieldsSplit(id: string, count: string, bp: string, pct: string)
    requires IsWord(id) && IsWord(count) && IsWord(bp) && IsWord(pct)
    ensures SplitOn(Join([id, count, bp, pct], " "), ' ') == [id, count, bp, pct]
  {
    WordHasNoBlank(id);
    WordHasNoBlank(count);
    WordHasNoBlank(bp);
    WordHasNoBlank(pct);
    SplitOnJoin([id, count, bp, pct], ' ');
  }

  /** The rows of four processed lines of which only the third is data. */
  lemma RowsOfThird(p: seq<string>, fields: seq<string>)
    requires |p| == 4
    requires !IsDataLine(p[0]) && !IsDataLine(p[1]) && IsDataLine(p[2]) && !IsDataLine(p[3])
    requires SplitOn(p[2], ' ') == fields
    ensures DataRows(p) == [fields]
  {
    OnlyThirdIsData(p);
  }

  /** The rows of that summary: the one data line's four fields. */
  lemma SummaryRows(separator: string, header: string, total: string,
                    id: string, count: string, bp: string, pct: string,
                    sp1: string, sp2: string, sp3: string)
    requires StartsWith(separator, "=") && StartsWith(header, "ID") && StartsWith(total, "total")
    requires IsWord(id) && IsWord(count) && IsWord(bp) && IsWord(pct)
    requires IsGap(sp1) && IsGap(sp2) && IsGap(sp3)
    requires IsDataLine(id)
    ensures DataRows(ProcessedLines([separator, header, id + sp1 + count + sp2 + bp + sp3 + pct + "\n", total]))
         == [[id, count, bp, pct]]
  {
    var line := id + sp1 + count + sp2 + bp + sp3 + pct + "\n";
    var t := Join([id, count, bp, pct], " ");
    NormaliseFourFields(id, count, bp, pct, sp1, sp2, sp3, "\n");
    JoinFour(id, count, bp, pct);
    DataLineOfFirstWord(id, count + " " + (bp + " " + pct));
    FourFieldsSplit(id, count, bp, pct);
    PrefixedLineDropped(separator, "=");
    PrefixedLineDropped(header, "ID");
    PrefixedLineDropped(total, "total");
    var lines := [separator, header, line, total];
    var p := ProcessedLines(lines);
    assert p[0] == Normalise(lines[0]) && p[1] == Normalise(lines[1]);
    assert p[2] == Normalise(lines[2]) && p[3] == Normalise(lines[3]);
    RowsOfThird(p, [id, count, bp, pct]);
  }

  /** One four-field row gives the CSV header and its ID and Count. */
  lemma OneRowFile(id: string, count: string, bp: string, pct: string)
    ensures Frame([[id, count, bp, pct]]) == Success([AbundanceRow(id, Some(count))])
    ensures CsvFile([AbundanceRow(id, Some(count))]) == ["ID,Count\n", id + "," + count + "\n"]
  {
    assert MaxWidth([[id, count, bp, pct]]) == 4;
    var r := Frame([[id, count, bp, pct]]);
    assert r.Success? && |r.value| == 1;
    assert r.value[0] == AbundanceRow(id, Some(count));
    assert r.value == [r.value[0]];
  }

  /** A summary of one data line between a separator, the column header and
      the total gives a file of the CSV header and that line's ID and Count. */
  lemma SummaryExample(separator: string, header: string, total: string,
                       id: string, count: string, bp: string, pct: string,
                       sp1: string, sp2: string, sp3: string)
    requires StartsWith(separator, "=") && StartsWith(header, "ID") && StartsWith(total, "total")
    requires IsWord(id) && IsWord(count) && IsWord(bp) && IsWord(pct)
    requires IsGap(sp1) && IsGap(sp2) && IsGap(sp3)
    requires IsDataLine(id)
    ensures AbundanceFile([separator, header, id + sp1 + count + sp2 + bp + sp3 + pct + "\n", total])
         == Success(["ID,Count\n", id + "," + count + "\n"])
  {
    SummaryRows(separator, header, total, id, count, bp, pct, sp1, sp2, sp3);
    OneRowFile(id, count, bp, pct);
  }
}
