/** The clade colour assigner of scripts/08.2_extract_clade_colors_annotation.py
    (repeated as scripts/11.2_extract_clade_colors_annotation.py): the distinct
    clades of column 3 are listed in first-seen order, the palette is shuffled
    in place, the i-th clade gets the colour at position i modulo the palette
    size, and every row is written as its id, its clade's colour and its clade. */
module CladeColours {
  import opened Wrappers
  import opened Seqs
  import opened Text

  /** The exception `iloc[:, 3]` raises on a table with fewer than 4 columns. */
  const NarrowTableError := "IndexError"

  /** A table read with `sep=' '` and `header=0`: the header row and the data
      rows, already split into fields. */
  datatype Table = Table(header: seq<string>, rows: seq<seq<string>>)

  /** A DataFrame has as many fields in every row as it has columns. */
  predicate Rectangular(t: Table) {
    forall i :: 0 <= i < |t.rows| ==> |t.rows[i]| == |t.header|
  }

  /** Column 3, the clade of every row. */
  function Clades(rows: seq<seq<string>>): (clades: seq<string>)
    requires forall i :: 0 <= i < |rows| ==> |rows[i]| >= 4
    ensures |clades| == |rows|
  {
    seq(|rows|, i requires 0 <= i < |rows| && |rows[i]| >= 4 => rows[i][3])
  }

  /** `data.iloc[:, 3].unique()` */
  function UniqueClades(rows: seq<seq<string>>): seq<string>
    requires forall i :: 0 <= i < |rows| ==> |rows[i]| >= 4
  {
    Distinct(Clades(rows))
  }

  /** Every clade of the table is listed once, and only those, in the order
      of first appearance. */
  lemma UniqueCladesListed(rows: seq<seq<string>>)
    requires forall i :: 0 <= i < |rows| ==> |rows[i]| >= 4
    ensures NoDups(UniqueClades(rows))
    ensures forall c :: c in UniqueClades(rows) <==> exists i :: 0 <= i < |rows| && rows[i][3] == c
    ensures var u, cs := UniqueClades(rows), Clades(rows);
      forall i, j :: 0 <= i < j < |u| ==> FirstIndex(cs, u[i]) < FirstIndex(cs, u[j])
  {
    var cs := Clades(rows);
    DistinctFirstSeen(cs);
    forall c | c in UniqueClades(rows)
      ensures exists i :: 0 <= i < |rows| && rows[i][3] == c
    {
      var i :| 0 <= i < |cs| && cs[i] == c;
      assert rows[i][3] == c;
    }
    forall c | exists i :: 0 <= i < |rows| && rows[i][3] == c
      ensures c in UniqueClades(rows)
    {
      var i :| 0 <= i < |rows| && rows[i][3] == c;
      assert cs[i] == c;
    }
  }

  /** `s` with the elements at `i` and `j` exchanged. */
  function Swap<T>(s: seq<T>, i: nat, j: nat): (r: seq<T>)
    requires i < |s| && j < |s|
    ensures |r| == |s| && r[i] == s[j] && r[j] == s[i]
    ensures forall k :: 0 <= k < |s| && k != i && k != j ==> r[k] == s[k]
  {
    s[i := s[j]][j := s[i]]
  }

  /** An exchange keeps the elements. */
  lemma SwapPermutes<T>(s: seq<T>, i: nat, j: nat)
    requires i < |s| && j < |s|
    ensures multiset(Swap(s, i, j)) == multiset(s)
  {
  }

  /** Draws that `random.shuffle` can make on a list of length `n`: the draw
      for position `i` is `_randbelow(i + 1)`, an index in `0..i`. */
  predicate ValidDraws(draws: seq<nat>, n: nat) {
    |draws| == n && forall i :: 0 < i < n ==> draws[i] <= i
  }

  /** The swaps of the shuffle for positions `i`, `i - 1`, ..., 1, applied to
      `s` in that order. */
  function SwapsDown<T>(s: seq<T>, draws: seq<nat>, i: nat): (r: seq<T>)
    requires ValidDraws(draws, |s|) && i < |s|
    ensures |r| == |s|
    decreases i
  {
    if i == 0 then s else SwapsDown(Swap(s, i, draws[i]), draws, i - 1)
  }

  /** `random.shuffle(s)` for the given draws. */
  function Shuffled<T>(s: seq<T>, draws: seq<nat>): (r: seq<T>)
    requires ValidDraws(draws, |s|)
    ensures |r| == |s|
  {
    if |s| == 0 then s else SwapsDown(s, draws, |s| - 1)
  }

  /** Each round of swaps keeps the elements. */
  lemma {:induction false} SwapsDownPermutes<T>(s: seq<T>, draws: seq<nat>, i: nat)
    requires ValidDraws(draws, |s|) && i < |s|
    ensures multiset(SwapsDown(s, draws, i)) == multiset(s)
    decreases i
  {
    if i > 0 {
      SwapPermutes(s, i, draws[i]);
      SwapsDownPermutes(Swap(s, i, draws[i]), draws, i - 1);
    }
  }

  /** The shuffled palette is a permutation of the palette. */
  lemma ShuffledPermutes<T>(s: seq<T>, draws: seq<nat>)
    requires ValidDraws(draws, |s|)
    ensures multiset(Shuffled(s, draws)) == multiset(s)
  {
    if |s| > 0 {
      SwapsDownPermutes(s, draws, |s| - 1);
    }
  }

  /** CPython's `random.shuffle`, in place: from the last position down to
      position 1, swap each with a drawn position at or below it. */
  method Shuffle<T>(a: array<T>, draws: seq<nat>)
    requires ValidDraws(draws, a.Length)
    modifies a
    ensures a[..] == Shuffled(old(a[..]), draws)
  {
    if a.Length == 0 {
      return;
    }
    ghost var goal := Shuffled(a[..], draws);
    var i := a.Length - 1;
    while i >= 1
      invariant 0 <= i < a.Length
      invariant SwapsDown(a[..], draws, i) == goal
    {
      var j := draws[i];
      ghost var before := a[..];
      var tmp := a[i];
      a[i] := a[j];
      a[j] := tmp;
      assert a[..] == Swap(before, i, j);
      i := i - 1;
    }
  }

  /** A shuffled palette without repeated colours has none either. */
  lemma ShuffledNoDups<T>(s: seq<T>, draws: seq<nat>)
    requires ValidDraws(draws, |s|) && NoDups(s)
    ensures NoDups(Shuffled(s, draws))
  {
    ShuffledPermutes(s, draws);
    PermutationNoDups(s, Shuffled(s, draws));
  }

  /** The clade colour dictionary: the i-th clade gets `colours[i % n]`. */
  function ColourMap(clades: seq<string>, colours: seq<string>): (m: map<string, string>)
    requires NoDups(clades) && |colours| > 0
    ensures m.Keys == set c | c in clades
    ensures forall i :: 0 <= i < |clades| ==> m[clades[i]] == colours[i % |colours|]
  {
    map i | 0 <= i < |clades| :: clades[i] := colours[i % |colours|]
  }

  /** Every clade gets a colour of the palette. */
  lemma ColoursFromPalette(clades: seq<string>, colours: seq<string>)
    requires NoDups(clades) && |colours| > 0
    ensures forall c :: c in ColourMap(clades, colours) ==> ColourMap(clades, colours)[c] in colours
  {
    var m := ColourMap(clades, colours);
    forall c | c in m
      ensures m[c] in colours
    {
      var i :| 0 <= i < |clades| && clades[i] == c;
      assert m[c] == colours[i % |colours|];
    }
  }

  /** Past the palette size the colours repeat: clade `i + n` gets the colour
      of clade `i`. */
  lemma ColoursWrapAround(clades: seq<string>, colours: seq<string>, i: nat)
    requires NoDups(clades) && |colours| > 0
    requires i + |colours| < |clades|
    ensures ColourMap(clades, colours)[clades[i]] == ColourMap(clades, colours)[clades[i + |colours|]]
  {
    ModPeriod(i, |colours|);
  }

  /** With at most as many clades as colours, different clades take different
      palette positions, so they get different colours when the palette
      repeats no colour. */
  lemma ColoursDistinct(clades: seq<string>, colours: seq<string>)
    requires NoDups(clades) && |colours| > 0
    requires |clades| <= |colours| && NoDups(colours)
    ensures forall i, j :: 0 <= i < j < |clades| ==>
      ColourMap(clades, colours)[clades[i]] != ColourMap(clades, colours)[clades[j]]
  {
    var m := ColourMap(clades, colours);
    forall i, j | 0 <= i < j < |clades|
      ensures m[clades[i]] != m[clades[j]]
    {
      ModSmall(i, |colours|);
      ModSmall(j, |colours|);
    }
  }

  /** A palette may spell one colour twice (CSS4 lists `aqua` and `cyan` both
      as `#00FFFF`): then two clades can share a colour even though there are
      fewer clades than palette entries. */
  lemma AliasedColoursCoincide(c1: string, c2: string)
    requires c1 != c2
    ensures var m := ColourMap([c1, c2], ["#00FFFF", "#00FFFF", "#000000"]);
      m[c1] == m[c2]
  {
    var m := ColourMap([c1, c2], ["#00FFFF", "#00FFFF", "#000000"]);
    assert [c1, c2][0] == c1 && [c1, c2][1] == c2;
  }

  /** `a * n >= n` for a positive multiple. */
  lemma MulAtLeast(a: int, n: int)
    requires a >= 1 && n > 0
    ensures a * n >= n
  {
  }

  /** The remainder of a Euclidean division is unique. */
  lemma ModUnique(x: int, n: int, q: int, r: int)
    requires n > 0 && 0 <= r < n && x == q * n + r
    ensures x % n == r
  {
    var q', r' := x / n, x % n;
    assert x == q' * n + r';
    assert (q - q') * n == r' - r;
    if q > q' {
      MulAtLeast(q - q', n);
    } else if q < q' {
      MulAtLeast(q' - q, n);
    }
  }

  /** Adding the modulus does not change the remainder. */
  lemma ModPeriod(i: nat, n: nat)
    requires n > 0
    ensures (i + n) % n == i % n
  {
    var q, r := i / n, i % n;
    assert i == q * n + r;
    assert i + n == (q + 1) * n + r;
    ModUnique(i + n, n, q + 1, r);
  }

  /** A number below the modulus is its own remainder. */
  lemma ModSmall(i: nat, n: nat)
    requires i < n
    ensures i % n == i
  {
  }

  /** One output row. */
  datatype Annotation = Annotation(id: string, colour: string, clade: string)

  /** `output_data[['id', 'color', 'clade']]`: every row's id and clade, and
      the colour its clade is mapped to. */
  function Annotate(rows: seq<seq<string>>, m: map<string, string>): (out: seq<Annotation>)
    requires forall i :: 0 <= i < |rows| ==> |rows[i]| >= 4 && rows[i][3] in m
    ensures |out| == |rows|
  {
    seq(|rows|, i requires 0 <= i < |rows| && |rows[i]| >= 4 && rows[i][3] in m =>
      Annotation(rows[i][0], m[rows[i][3]], rows[i][3]))
  }

  /** One output row per input row, in order, with the row's id and clade;
      rows of one clade get one colour, the colour of their clade. */
  lemma AnnotationsConsistent(rows: seq<seq<string>>, palette: seq<string>)
    requires forall i :: 0 <= i < |rows| ==> |rows[i]| >= 4
    requires |palette| > 0
    ensures var u := UniqueClades(rows);
      var m := ColourMap(u, palette);
      && (forall i :: 0 <= i < |rows| ==> rows[i][3] in m)
      && var out := Annotate(rows, m);
      && |out| == |rows|
      && (forall i :: 0 <= i < |rows| ==>
            out[i].id == rows[i][0] && out[i].clade == rows[i][3]
            && out[i].colour == palette[FirstIndex(u, rows[i][3]) % |palette|])
      && (forall i, j :: 0 <= i < |rows| && 0 <= j < |rows| && rows[i][3] == rows[j][3] ==>
            out[i].colour == out[j].colour)
  {
    var u := UniqueClades(rows);
    var m := ColourMap(u, palette);
    UniqueCladesListed(rows);
    forall i | 0 <= i < |rows|
      ensures rows[i][3] in m
      ensures m[rows[i][3]] == palette[FirstIndex(u, rows[i][3]) % |palette|]
    {
      assert rows[i][3] in u;
      var k := FirstIndex(u, rows[i][3]);
      assert u[k] == rows[i][3];
    }
  }

  /** `to_csv(sep=' ', index=False, header=False)` of one row. */
  function AnnotationLine(a: Annotation): (line: string)
    ensures |line| > 0 && line[|line| - 1] == '\n'
    ensures StartsWith(line, a.id + " ")
  {
    a.id + " " + a.colour + " " + a.clade + "\n"
  }

  /** A written row reads back as its three fields when none holds a space. */
  lemma AnnotationLineReadsBack(a: Annotation)
    requires ' ' !in a.id && ' ' !in a.colour && ' ' !in a.clade
    ensures var line := AnnotationLine(a);
      && |line| > 0 && line[|line| - 1] == '\n'
      && SplitOn(line[..|line| - 1], ' ') == [a.id, a.colour, a.clade]
  {
    var line := AnnotationLine(a);
    var fields := [a.id, a.colour, a.clade];
    assert Join(fields[2..], [' ']) == a.clade;
    assert Join(fields[1..], [' ']) == a.colour + [' '] + a.clade;
    assert line[..|line| - 1] == Join(fields, [' ']);
    SplitOnJoin(fields, ' ');
  }

  /** The output file for a table and the shuffled palette. */
  function AnnotationFile(rows: seq<seq<string>>, colours: seq<string>): (lines: seq<string>)
    requires forall i :: 0 <= i < |rows| ==> |rows[i]| >= 4
    requires |colours| > 0
    ensures |lines| == |rows|
  {
    AnnotationsConsistent(rows, colours);
    var out := Annotate(rows, ColourMap(UniqueClades(rows), colours));
    seq(|out|, i requires 0 <= i < |out| => AnnotationLine(out[i]))
  }

  /** The whole script over a parsed table: a table without a column 3 fails
      before the palette is touched; otherwise the palette is shuffled in
      place and the annotation lines are produced from it. */
  method CladeAnnotation(t: Table, palette: array<string>, draws: seq<nat>) returns (out: Result<seq<string>>)
    requires Rectangular(t)
    requires palette.Length > 0 && ValidDraws(draws, palette.Length)
    modifies palette
    ensures |t.header| < 4 ==> out == Failure(NarrowTableError) && palette[..] == old(palette[..])
    ensures |t.header| >= 4 ==>
      && palette[..] == Shuffled(old(palette[..]), draws)
      && out == Success(AnnotationFile(t.rows, palette[..]))
  {
    if |t.header| < 4 {
      return Failure(NarrowTableError);
    }
    Shuffle(palette, draws);
    out := Success(AnnotationFile(t.rows, palette[..]));
  }
}
