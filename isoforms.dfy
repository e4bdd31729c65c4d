/** The isoform grouper of scripts/12.2_extract_isoforms.py, repeated verbatim
    as the last step of scripts/17.1_get_contigs_genes.py: FASTA header lines
    matching `>(ice\d+[-\w]*)` give an isoform identifier, the identifier up to
    its first `-` is the gene, and one `;`-joined line is written per gene. */
module Isoforms {
  import opened Wrappers
  import opened Seqs
  import opened Text

  /** `\d`, restricted to ASCII. */
  predicate IsDigit(c: char) {
    '0' <= c <= '9'
  }

  /** `[-\w]`, with `\w` restricted to ASCII letters, digits and `_`. */
  predicate IsIdChar(c: char) {
    c == '-' || c == '_' || IsDigit(c) || 'a' <= c <= 'z' || 'A' <= c <= 'Z'
  }

  /** The longest prefix of `s` made of `[-\w]` characters. */
  function IdRun(s: string): (w: string)
    ensures |w| <= |s| && w == s[..|w|]
    ensures forall k :: 0 <= k < |w| ==> IsIdChar(w[k])
    ensures |w| == |s| || !IsIdChar(s[|w|])
  {
    if |s| == 0 || !IsIdChar(s[0]) then "" else [s[0]] + IdRun(s[1..])
  }

  /** Group 1 of `re.match(r">(ice\d+[-\w]*)", line)`. The greedy `\d+[-\w]*`
      takes every `[-\w]` character after `ice` once the first is a digit, so
      the token is `ice` followed by that maximal run. */
  function MatchIsoform(line: string): (t: Option<string>)
    ensures t.Some? <==> StartsWith(line, ">ice") && |line| > 4 && IsDigit(line[4])
    ensures t.Some? ==>
      && StartsWith(t.value, "ice")
      && |t.value| > 3 && IsDigit(t.value[3])
      && (forall k :: 3 <= k < |t.value| ==> IsIdChar(t.value[k]))
      && StartsWith(line[1..], t.value)
      && (|line| == 1 + |t.value| || !IsIdChar(line[1 + |t.value|]))
  {
    if |line| > 4 && line[..4] == ">ice" && IsDigit(line[4]) then
      var run := IdRun(line[4..]);
      assert line[1..4] == "ice";
      assert line[1..][..3 + |run|] == line[1..4] + line[4..][..|run|];
      Some("ice" + run)
    else
      None
  }

  /** The token a line contributes: only lines starting with `>` are matched. */
  function HeaderToken(line: string): (t: Option<string>)
    ensures t.Some? <==> StartsWith(line, ">ice") && |line| > 4 && IsDigit(line[4])
    ensures t.Some? ==> IsIsoformId(t.value) && StartsWith(line[1..], t.value)
  {
    if StartsWith(line, ">") then MatchIsoform(line) else None
  }

  /** `match.group(1).split('-')[0]` */
  function GeneKey(token: string): (g: string)
    ensures '-' !in g
  {
    PrefixBefore(token, '-')
  }

  /** The isoform identifiers of the file, one per matching header, in file
      order. */
  function Tokens(lines: seq<string>): seq<string> {
    if |lines| == 0 then []
    else
      var t := HeaderToken(lines[|lines| - 1]);
      Tokens(lines[..|lines| - 1]) + (if t.Some? then [t.value] else [])
  }

  /** The gene of each token, in order. */
  function GeneKeys(tokens: seq<string>): (keys: seq<string>)
    ensures |keys| == |tokens|
  {
    seq(|tokens|, i requires 0 <= i < |tokens| => GeneKey(tokens[i]))
  }

  /** The tokens whose gene is `g`, in order: the list `isoforms_dict[g]`. */
  function IsoformsOf(tokens: seq<string>, g: string): seq<string> {
    if |tokens| == 0 then []
    else
      var t := tokens[|tokens| - 1];
      IsoformsOf(tokens[..|tokens| - 1], g) + (if GeneKey(t) == g then [t] else [])
  }

  /** One output line: the isoforms joined by `;`, then a newline. */
  function GroupLine(isoforms: seq<string>): string {
    Join(isoforms, ";") + "\n"
  }

  /** The file written: one line per gene, genes in first-appearance order. */
  function IsoformLines(lines: seq<string>): (out: seq<string>)
    ensures |out| <= |Tokens(lines)|
    ensures out == [] <==> Tokens(lines) == []
  {
    var tokens := Tokens(lines);
    var genes := Distinct(GeneKeys(tokens));
    seq(|genes|, i requires 0 <= i < |genes| => GroupLine(IsoformsOf(tokens, genes[i])))
  }

  /** The isoforms of `genes`, group after group. */
  function Concat(genes: seq<string>, tokens: seq<string>): seq<string> {
    if |genes| == 0 then []
    else Concat(genes[..|genes| - 1], tokens) + IsoformsOf(tokens, genes[|genes| - 1])
  }

  /** `genes` and `isoforms` are what the reading loop has built from
      `tokens`: the keys in first-appearance order and each gene's list. */
  ghost predicate Grouped(tokens: seq<string>, genes: seq<string>, isoforms: map<string, seq<string>>) {
    && genes == Distinct(GeneKeys(tokens))
    && (forall g :: g in isoforms <==> g in genes)
    && (forall g :: g in isoforms ==> isoforms[g] == IsoformsOf(tokens, g))
  }

  /** The reading loop: `isoforms_dict`, a defaultdict(list), is the map
      `isoforms` together with `genes`, its keys in insertion order. */
  method GroupIsoforms(lines: seq<string>) returns (genes: seq<string>, isoforms: map<string, seq<string>>)
    ensures genes == Distinct(GeneKeys(Tokens(lines)))
    ensures forall g :: g in isoforms <==> g in genes
    ensures forall g :: g in isoforms ==> isoforms[g] == IsoformsOf(Tokens(lines), g)
  {
    genes, isoforms := [], map[];
    ghost var tokens: seq<string> := [];
    var i := 0;
    while i < |lines|
      invariant 0 <= i <= |lines|
      invariant tokens == Tokens(lines[..i])
      invariant Grouped(tokens, genes, isoforms)
    {
      var line := lines[i];
      TokensStep(lines, i);
      if StartsWith(line, ">") {
        var m := MatchIsoform(line);
        if m.Some? {
          var gene := GeneKey(m.value);
          if gene in isoforms {
            GroupStepOld(tokens, m.value, genes, isoforms);
            isoforms := isoforms[gene := isoforms[gene] + [m.value]];
          } else {
            GroupStepNew(tokens, m.value, genes, isoforms);
            genes := genes + [gene];
            isoforms := isoforms[gene := [m.value]];
          }
          tokens := tokens + [m.value];
        }
      }
      i := i + 1;
    }
    assert lines[..i] == lines;
  }

  /** A header whose gene is already a key appends to that key's list. */
  lemma GroupStepOld(tokens: seq<string>, t: string, genes: seq<string>, isoforms: map<string, seq<string>>)
    requires Grouped(tokens, genes, isoforms)
    requires GeneKey(t) in isoforms
    ensures Grouped(tokens + [t], genes, isoforms[GeneKey(t) := isoforms[GeneKey(t)] + [t]])
  {
    var gene := GeneKey(t);
    var isoforms' := isoforms[gene := isoforms[gene] + [t]];
    GeneKeysAppend(tokens, t);
    DistinctAppend(GeneKeys(tokens), gene);
    forall g | g in isoforms'
      ensures isoforms'[g] == IsoformsOf(tokens + [t], g)
    {
      IsoformsOfAppend(tokens, t, g);
    }
  }

  /** A header of a new gene adds the key, with a one-element list. */
  lemma GroupStepNew(tokens: seq<string>, t: string, genes: seq<string>, isoforms: map<string, seq<string>>)
    requires Grouped(tokens, genes, isoforms)
    requires GeneKey(t) !in isoforms
    ensures Grouped(tokens + [t], genes + [GeneKey(t)], isoforms[GeneKey(t) := [t]])
  {
    var gene := GeneKey(t);
    var isoforms' := isoforms[gene := [t]];
    GeneKeysAppend(tokens, t);
    DistinctAppend(GeneKeys(tokens), gene);
    IsoformsOfAbsent(tokens, gene);
    forall g | g in isoforms'
      ensures isoforms'[g] == IsoformsOf(tokens + [t], g)
    {
      IsoformsOfAppend(tokens, t, g);
    }
  }

  /** Reading line `i`. */
  lemma TokensStep(lines: seq<string>, i: nat)
    requires i < |lines|
    ensures Tokens(lines[..i + 1]) ==
      Tokens(lines[..i]) + (if HeaderToken(lines[i]).Some? then [HeaderToken(lines[i]).value] else [])
  {
    TokensAppend(lines[..i], lines[i]);
    assert lines[..i + 1] == lines[..i] + [lines[i]];
  }

  lemma GeneKeysAppend(tokens: seq<string>, t: string)
    ensures GeneKeys(tokens + [t]) == GeneKeys(tokens) + [GeneKey(t)]
    ensures GeneKeys(tokens + [t])[..|tokens|] == GeneKeys(tokens)
  {
  }

  lemma IsoformsOfAppend(tokens: seq<string>, t: string, g: string)
    ensures IsoformsOf(tokens + [t], g) == IsoformsOf(tokens, g) + (if GeneKey(t) == g then [t] else [])
  {
    assert (tokens + [t])[..|tokens|] == tokens;
  }

  /** Reading one more line. */
  lemma TokensAppend(lines: seq<string>, line: string)
    ensures Tokens(lines + [line]) ==
      Tokens(lines) + (if HeaderToken(line).Some? then [HeaderToken(line).value] else [])
  {
    assert (lines + [line])[..|lines|] == lines;
  }

  /** The whole script: group, then write one line per gene. */
  method ExtractIsoforms(lines: seq<string>) returns (out: seq<string>)
    ensures out == IsoformLines(lines)
  {
    var genes, isoforms := GroupIsoforms(lines);
    ghost var expected := IsoformLines(lines);
    out := [];
    var j := 0;
    while j < |genes|
      invariant 0 <= j <= |genes| == |expected|
      invariant out == expected[..j]
    {
      assert expected[j] == GroupLine(isoforms[genes[j]]);
      out := out + [GroupLine(isoforms[genes[j]])];
      PrefixExtend(expected, j);
      j := j + 1;
    }
    assert expected[..j] == expected;
  }

  /** A gene no token has collects nothing. */
  lemma {:induction false} IsoformsOfAbsent(tokens: seq<string>, g: string)
    requires g !in GeneKeys(tokens)
    ensures IsoformsOf(tokens, g) == []
  {
    if |tokens| > 0 {
      var t0 := tokens[..|tokens| - 1];
      assert GeneKeys(tokens)[|tokens| - 1] == GeneKey(tokens[|tokens| - 1]);
      assert forall i :: 0 <= i < |t0| ==> GeneKeys(t0)[i] == GeneKeys(tokens)[i];
      IsoformsOfAbsent(t0, g);
    }
  }

  /** `isoforms_dict[g]` holds every token of gene `g`, duplicates included,
      and nothing else: each token occurs in it as often as in the file if
      its gene is `g`, and not at all otherwise. */
  lemma {:induction false} IsoformsOfCounts(tokens: seq<string>, g: string)
    ensures forall t ::
              multiset(IsoformsOf(tokens, g))[t] == (if GeneKey(t) == g then multiset(tokens)[t] else 0)
  {
    if |tokens| > 0 {
      var t0, x := tokens[..|tokens| - 1], tokens[|tokens| - 1];
      IsoformsOfCounts(t0, g);
      assert tokens == t0 + [x];
    }
  }

  /** Membership in a group, both ways. */
  lemma IsoformsOfMembers(tokens: seq<string>, g: string)
    ensures forall t :: t in IsoformsOf(tokens, g) <==> t in tokens && GeneKey(t) == g
  {
    IsoformsOfCounts(tokens, g);
    forall t
      ensures t in IsoformsOf(tokens, g) <==> t in tokens && GeneKey(t) == g
    {
      assert t in IsoformsOf(tokens, g) <==> multiset(IsoformsOf(tokens, g))[t] > 0;
      assert t in tokens <==> multiset(tokens)[t] > 0;
    }
  }

  /** Within a gene, isoforms keep their file order. */
  lemma {:induction false} IsoformsInFileOrder(tokens: seq<string>, g: string)
    ensures IsSubsequence(IsoformsOf(tokens, g), tokens)
  {
    if |tokens| > 0 {
      var t0, x := tokens[..|tokens| - 1], tokens[|tokens| - 1];
      IsoformsInFileOrder(t0, g);
      var i0 := IsoformsOf(t0, g);
      if GeneKey(x) == g {
        var a := i0 + [x];
        assert IsoformsOf(tokens, g) == a;
        assert a[..|a| - 1] == i0 && a[|a| - 1] == tokens[|tokens| - 1];
        assert IsSubsequence(a[..|a| - 1], tokens[..|tokens| - 1]);
      } else {
        assert IsoformsOf(tokens, g) == i0;
        assert IsSubsequence(i0, tokens[..|tokens| - 1]);
      }
    }
  }

  /** A gene is emitted iff some token has it, and then its line is not empty:
      no gene has an empty group. */
  lemma {:induction false} GroupsNonEmpty(tokens: seq<string>, g: string)
    ensures IsoformsOf(tokens, g) != [] <==> g in Distinct(GeneKeys(tokens))
  {
    IsoformsOfMembers(tokens, g);
    if g in GeneKeys(tokens) {
      var i :| 0 <= i < |tokens| && GeneKeys(tokens)[i] == g;
      assert tokens[i] in IsoformsOf(tokens, g);
    } else {
      IsoformsOfAbsent(tokens, g);
    }
  }

  /** The shape of an isoform identifier: `ice`, a digit, then `[-\w]`. */
  predicate IsIsoformId(t: string) {
    && StartsWith(t, "ice") && |t| > 3 && IsDigit(t[3])
    && forall k :: 0 <= k < |t| ==> IsIdChar(t[k])
  }

  /** Every gene key is a prefix of each isoform in its group, starts with
      `ice` and a digit, and has no `-`. */
  lemma GeneKeyShape(lines: seq<string>, g: string, t: string)
    requires t in IsoformsOf(Tokens(lines), g)
    ensures StartsWith(t, g) && '-' !in g
    ensures StartsWith(g, "ice") && |g| > 3 && IsDigit(g[3])
  {
    IsoformsOfMembers(Tokens(lines), g);
    assert t in Tokens(lines) && GeneKey(t) == g;
    TokensAreIds(lines);
    IdKeyShape(t);
  }

  /** The gene key of an isoform identifier. */
  lemma IdKeyShape(t: string)
    requires IsIsoformId(t)
    ensures var g := GeneKey(t);
      StartsWith(t, g) && '-' !in g && StartsWith(g, "ice") && |g| > 3 && IsDigit(g[3])
  {
    var g := GeneKey(t);
    assert t[0] == 'i' && t[1] == 'c' && t[2] == 'e' && t[3] != '-';
    assert |g| > 3;
    assert g[..3] == t[..3];
  }

  /** Every token is an isoform identifier. */
  lemma {:induction false} TokensAreIds(lines: seq<string>)
    ensures forall t :: t in Tokens(lines) ==> IsIsoformId(t)
  {
    if |lines| > 0 {
      TokensAreIds(lines[..|lines| - 1]);
    }
  }

  /** Concatenating the groups of genes that `x`'s gene is not among is not
      affected by `x`. */
  lemma {:induction false} ConcatOther(genes: seq<string>, tokens: seq<string>, x: string)
    requires GeneKey(x) !in genes
    ensures Concat(genes, tokens + [x]) == Concat(genes, tokens)
  {
    if |genes| > 0 {
      ConcatOther(genes[..|genes| - 1], tokens, x);
      assert (tokens + [x])[..|tokens|] == tokens;
    }
  }

  /** Adding `x` whose gene is listed once adds `x` once to the
      concatenation. */
  lemma {:induction false} ConcatAdd(genes: seq<string>, tokens: seq<string>, x: string)
    requires NoDups(genes) && GeneKey(x) in genes
    ensures multiset(Concat(genes, tokens + [x])) == multiset(Concat(genes, tokens)) + multiset{x}
  {
    var g0, h := genes[..|genes| - 1], genes[|genes| - 1];
    assert (tokens + [x])[..|tokens|] == tokens;
    if h == GeneKey(x) {
      assert GeneKey(x) !in g0;
      ConcatOther(g0, tokens, x);
    } else {
      assert GeneKey(x) in g0;
      ConcatAdd(g0, tokens, x);
    }
  }

  /** The groups partition the isoforms: concatenated in output order, they
      are a permutation of the tokens, so every matching header is written
      exactly once. */
  lemma {:induction false} GroupsPartition(tokens: seq<string>)
    ensures multiset(Concat(Distinct(GeneKeys(tokens)), tokens)) == multiset(tokens)
    ensures |Concat(Distinct(GeneKeys(tokens)), tokens)| == |tokens|
  {
    var c := Concat(Distinct(GeneKeys(tokens)), tokens);
    if |tokens| > 0 {
      var t0, x := tokens[..|tokens| - 1], tokens[|tokens| - 1];
      GroupsPartition(t0);
      PartitionStep(tokens);
      MultisetLast(tokens);
    }
    assert |multiset(c)| == |c|;
  }

  /** The last token adds it once to the concatenated groups. */
  lemma PartitionStep(tokens: seq<string>)
    requires |tokens| > 0
    ensures var t0, x := tokens[..|tokens| - 1], tokens[|tokens| - 1];
      multiset(Concat(Distinct(GeneKeys(tokens)), tokens))
        == multiset(Concat(Distinct(GeneKeys(t0)), t0)) + multiset{x}
  {
    var t0, x := tokens[..|tokens| - 1], tokens[|tokens| - 1];
    assert tokens == t0 + [x];
    var d := Distinct(GeneKeys(t0));
    GeneKeysAppend(t0, x);
    DistinctAppend(GeneKeys(t0), GeneKey(x));
    if GeneKey(x) in d {
      ConcatAdd(d, t0, x);
    } else {
      assert GeneKey(x) !in GeneKeys(t0);
      IsoformsOfAbsent(t0, GeneKey(x));
      IsoformsOfAppend(t0, x, GeneKey(x));
      ConcatOther(d, t0, x);
      assert (d + [GeneKey(x)])[..|d|] == d;
    }
  }

  /** Each output line reads back, split on `;`, as exactly its gene's
      isoforms: identifiers never contain `;`. */
  lemma LinesReadBack(lines: seq<string>, i: nat)
    requires i < |IsoformLines(lines)|
    ensures var line := IsoformLines(lines)[i];
      && |line| > 0 && line[|line| - 1] == '\n'
      && SplitOn(line[..|line| - 1], ';') == IsoformsOf(Tokens(lines), Distinct(GeneKeys(Tokens(lines)))[i])
  {
    var tokens := Tokens(lines);
    var g := Distinct(GeneKeys(tokens))[i];
    var group := IsoformsOf(tokens, g);
    GroupsNonEmpty(tokens, g);
    IsoformsOfMembers(tokens, g);
    TokensAreIds(lines);
    forall k | 0 <= k < |group|
      ensures ';' !in group[k]
    {
      assert group[k] in group;
      assert IsIsoformId(group[k]);
    }
    SplitOnJoin(group, ';');
    var line := GroupLine(group);
    assert line[..|line| - 1] == Join(group, [';']);
  }

  /** The documented example (`>ice0009061-RA`, `>ice0009061-RB` give the line
      `ice0009061-RA;ice0009061-RB`), for every gene identifier: sequence lines
      and a header of another naming scheme contribute nothing. */
  lemma DocumentedExample(gene: string)
    requires IsIsoformId(gene) && '-' !in gene
    ensures IsoformLines([">" + gene + "-RA protein\n", "MKV\n", ">" + gene + "-RB\n", ">gene17\n"])
         == [gene + "-RA;" + gene + "-RB\n"]
  {
    ExampleIsoform(gene, "RA", " protein\n");
    assert ">" + gene + "-" + "RA" + " protein\n" == ">" + gene + "-RA protein\n";
    assert gene + "-" + "RA" == gene + "-RA";
    ExampleIsoform(gene, "RB", "\n");
    assert ">" + gene + "-" + "RB" + "\n" == ">" + gene + "-RB\n";
    assert gene + "-" + "RB" == gene + "-RB";
    OtherLines();
    TwoIsoformsOneGene(">" + gene + "-RA protein\n", "MKV\n", ">" + gene + "-RB\n", ">gene17\n",
                       gene + "-RA", gene + "-RB", gene);
    ExampleLine(gene);
  }

  /** The example's output line, spelled out. */
  lemma ExampleLine(gene: string)
    ensures (gene + "-RA") + ";" + (gene + "-RB") + "\n" == gene + "-RA;" + gene + "-RB\n"
  {
  }

  /** A sequence line and a header of another naming scheme carry no isoform. */
  lemma OtherLines()
    ensures HeaderToken("MKV\n") == None && HeaderToken(">gene17\n") == None
  {
    assert ">gene17\n"[1] != ">ice"[1];
  }

  /** The header `>gene-suffix tail` yields the isoform `gene-suffix` of `gene`. */
  lemma ExampleIsoform(gene: string, suffix: string, tail: string)
    requires IsIsoformId(gene) && '-' !in gene
    requires forall k :: 0 <= k < |suffix| ==> IsIdChar(suffix[k])
    requires tail == [] || !IsIdChar(tail[0])
    ensures HeaderToken(">" + gene + "-" + suffix + tail) == Some(gene + "-" + suffix)
    ensures GeneKey(gene + "-" + suffix) == gene
  {
    var iso := gene + "-" + suffix;
    assert IsIsoformId(iso);
    assert ">" + gene + "-" + suffix + tail == ">" + iso + tail;
    HeaderOf(">" + iso + tail, iso, tail);
    assert iso == gene + ['-'] + suffix;
    SplitOnSeparated(gene, suffix, '-');
  }

  /** Two matching headers of one gene, and two lines that do not match,
      give a single output line. */
  lemma TwoIsoformsOneGene(a: string, b: string, c: string, d: string, ra: string, rb: string, gene: string)
    requires HeaderToken(a) == Some(ra) && HeaderToken(c) == Some(rb)
    requires HeaderToken(b) == None && HeaderToken(d) == None
    requires GeneKey(ra) == gene && GeneKey(rb) == gene
    ensures IsoformLines([a, b, c, d]) == [ra + ";" + rb + "\n"]
  {
    TwoTokens(a, b, c, d, ra, rb);
    SingleGene([a, b, c, d], gene);
    assert GroupLine([ra, rb]) == ra + ";" + rb + "\n" by {
      assert [ra, rb][1..] == [rb];
      assert Join([rb], ";") == rb;
    }
  }

  /** The tokens of four lines of which the first and third match. */
  lemma TwoTokens(a: string, b: string, c: string, d: string, ra: string, rb: string)
    requires HeaderToken(a) == Some(ra) && HeaderToken(c) == Some(rb)
    requires HeaderToken(b) == None && HeaderToken(d) == None
    ensures Tokens([a, b, c, d]) == [ra, rb]
  {
    TokensAppend([], a);
    TokensAppend([a], b);
    TokensAppend([a, b], c);
    TokensAppend([a, b, c], d);
    assert [a] + [b] == [a, b] && [a, b] + [c] == [a, b, c] && [a, b, c] + [d] == [a, b, c, d];
  }

  /** A file whose headers all belong to one gene gives one line, listing
      every isoform of the file in order. */
  lemma SingleGene(lines: seq<string>, gene: string)
    requires Tokens(lines) != []
    requires forall t :: t in Tokens(lines) ==> GeneKey(t) == gene
    ensures IsoformLines(lines) == [GroupLine(Tokens(lines))]
  {
    var tokens := Tokens(lines);
    assert forall i :: 0 <= i < |tokens| ==> tokens[i] in tokens;
    AllOfGene(tokens, gene);
    forall k | k in GeneKeys(tokens)
      ensures k == gene
    {
      var i :| 0 <= i < |tokens| && GeneKeys(tokens)[i] == k;
      assert tokens[i] in tokens;
    }
    OneKey(GeneKeys(tokens), gene);
  }

  /** Tokens that all belong to `gene` are all its isoforms. */
  lemma {:induction false} AllOfGene(tokens: seq<string>, gene: string)
    requires forall i :: 0 <= i < |tokens| ==> GeneKey(tokens[i]) == gene
    ensures IsoformsOf(tokens, gene) == tokens
  {
    if |tokens| > 0 {
      var init := tokens[..|tokens| - 1];
      AllOfGene(init, gene);
      assert init + [tokens[|tokens| - 1]] == tokens;
    }
  }

  /** A non-empty list of one repeated key has that key as its only distinct
      element. */
  lemma {:induction false} OneKey(keys: seq<string>, gene: string)
    requires keys != [] && forall k :: k in keys ==> k == gene
    ensures Distinct(keys) == [gene]
  {
    var init := keys[..|keys| - 1];
    assert keys[|keys| - 1] in keys;
    assert init + [gene] == keys;
    DistinctAppend(init, gene);
    if init != [] {
      assert forall k :: k in init ==> k in keys;
      OneKey(init, gene);
    }
  }

  /** A header `>` token tail, where the tail does not continue the
      identifier, contributes exactly that token. */
  lemma HeaderOf(line: string, token: string, tail: string)
    requires line == ">" + token + tail
    requires IsIsoformId(token)
    requires tail == [] || !IsIdChar(tail[0])
    ensures HeaderToken(line) == Some(token)
  {
    assert line[4..] == token[3..] + tail;
    IdRunPrefix(token[3..], tail);
    assert token == "ice" + token[3..];
  }

  /** IdRun stops exactly where the identifier characters stop. */
  lemma {:induction false} IdRunPrefix(w: string, rest: string)
    requires forall k :: 0 <= k < |w| ==> IsIdChar(w[k])
    requires rest == [] || !IsIdChar(rest[0])
    ensures IdRun(w + rest) == w
  {
    if |w| > 0 {
      assert (w + rest)[1..] == w[1..] + rest;
      IdRunPrefix(w[1..], rest);
    }
  }
}
