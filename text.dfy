/** The Python string operations the scripts use, over `seq<char>`. */
module Text {
  import opened Wrappers

  /** Python's `str.isspace()`: the characters that `\s` matches in a `str`
      pattern and that `strip()` and `split()` treat as whitespace. */
  predicate IsSpace(c: char) {
    || c == ' '
    || '\t' <= c <= '\r'
    || '\U{1c}' <= c <= '\U{1f}'
    || c == '\U{85}' || c == '\U{a0}' || c == '\U{1680}'
    || '\U{2000}' <= c <= '\U{200a}'
    || c == '\U{2028}' || c == '\U{2029}' || c == '\U{202f}' || c == '\U{205f}' || c == '\U{3000}'
  }

  /** `s.startswith(p)` */
  predicate StartsWith(s: string, p: string) {
    |p| <= |s| && s[..|p|] == p
  }

  /** `s.split(c)` for a one-character separator: the maximal runs between
      separators, empty ones included, so there is always at least one field. */
  function SplitOn(s: string, c: char): (r: seq<string>)
    ensures |r| >= 1
    ensures forall k :: 0 <= k < |r| ==> c !in r[k]
    ensures |r[0]| <= |s|
    ensures r[0] == s[..|r[0]|] && (|r[0]| == |s| || s[|r[0]|] == c)
  {
    if |s| == 0 then [""]
    else
      var rest := SplitOn(s[1..], c);
      if s[0] == c then [""] + rest
      else [[s[0]] + rest[0]] + rest[1..]
  }

  /** `sep.join(parts)` */
  function Join(parts: seq<string>, sep: string): string {
    if |parts| == 0 then ""
    else if |parts| == 1 then parts[0]
    else parts[0] + sep + Join(parts[1..], sep)
  }

  /** `s.split(c)[0]`: the text before the first `c`, or all of `s`. */
  function PrefixBefore(s: string, c: char): (r: string)
    ensures |r| <= |s|
    ensures r == s[..|r|]
    ensures c !in r
    ensures |r| == |s| || s[|r|] == c
  {
    SplitOn(s, c)[0]
  }

  /** `parts[-1]` */
  function Last(parts: seq<string>): string
    requires |parts| > 0
  {
    parts[|parts| - 1]
  }

  /** A line as read, without its `\n` terminator if it has one. */
  function Chomp(s: string): (r: string)
    ensures s == r || s == r + "\n"
  {
    if |s| > 0 && s[|s| - 1] == '\n' then s[..|s| - 1] else s
  }

  /** `s.lstrip()` */
  function StripLeft(s: string): (r: string)
    ensures |r| <= |s|
    ensures r == s[|s| - |r|..]
    ensures forall k :: 0 <= k < |s| - |r| ==> IsSpace(s[k])
    ensures r == [] || !IsSpace(r[0])
  {
    if |s| > 0 && IsSpace(s[0]) then StripLeft(s[1..]) else s
  }

  /** `s.rstrip()` */
  function StripRight(s: string): (r: string)
    ensures |r| <= |s|
    ensures r == s[..|r|]
    ensures forall k :: |r| <= k < |s| ==> IsSpace(s[k])
    ensures r == [] || !IsSpace(r[|r| - 1])
  {
    if |s| > 0 && IsSpace(s[|s| - 1]) then StripRight(s[..|s| - 1]) else s
  }

  /** `s.strip()`: the piece of `s` left when the whitespace at both ends is
      removed. */
  function Strip(s: string): (r: string)
    ensures r == [] || (!IsSpace(r[0]) && !IsSpace(r[|r| - 1]))
    ensures exists i ::
              && 0 <= i <= |s|
              && StartsWith(s[i..], r)
              && (forall k :: 0 <= k < i ==> IsSpace(s[k]))
              && (forall k :: i + |r| <= k < |s| ==> IsSpace(s[k]))
  {
    var l := StripLeft(s);
    var r := StripRight(l);
    var i := |s| - |l|;
    assert s[i..] == l;
    r
  }

  /** The longest prefix of `s` without whitespace. */
  function TakeWord(s: string): (w: string)
    ensures |w| <= |s|
    ensures w == s[..|w|]
    ensures forall k :: 0 <= k < |w| ==> !IsSpace(w[k])
    ensures |w| == |s| || IsSpace(s[|w|])
  {
    if |s| == 0 || IsSpace(s[0]) then "" else [s[0]] + TakeWord(s[1..])
  }

  /** `s.split()[0]`, or None where Python raises IndexError because the line
      is blank. */
  function FirstToken(s: string): (t: Option<string>)
    ensures t.None? <==> forall k :: 0 <= k < |s| ==> IsSpace(s[k])
    ensures t.Some? ==>
      && t.value != ""
      && (forall k :: 0 <= k < |t.value| ==> !IsSpace(t.value[k]))
      && (exists i ::
            && 0 <= i <= |s|
            && (forall k :: 0 <= k < i ==> IsSpace(s[k]))
            && StartsWith(s[i..], t.value)
            && (|s[i..]| == |t.value| || IsSpace(s[i..][|t.value|])))
  {
    var rest := StripLeft(s);
    if rest == [] then None
    else
      var w := TakeWord(rest);
      assert s[|s| - |rest|..] == rest;
      Some(w)
  }

  /** A non-empty run of non-whitespace characters. */
  predicate IsWord(w: string) {
    |w| > 0 && forall k :: 0 <= k < |w| ==> !IsSpace(w[k])
  }

  /** `s.split()`: the maximal runs of non-whitespace characters, in order. */
  function Words(s: string): seq<string>
    decreases |s|
  {
    var t := StripLeft(s);
    if t == [] then [] else [TakeWord(t)] + Words(t[|TakeWord(t)|..])
  }

  /** The first step of `s.split()`: skip the leading whitespace, take a word. */
  lemma WordsStep(s: string)
    requires StripLeft(s) != []
    ensures var t := StripLeft(s);
      && IsWord(TakeWord(t))
      && Words(s) == [TakeWord(t)] + Words(t[|TakeWord(t)|..])
  {
    var t := StripLeft(s);
    assert TakeWord(t)[0] == t[0];
  }

  /** Every element of `s.split()` is a word. */
  lemma {:induction false} WordsAreWords(s: string)
    ensures forall i :: 0 <= i < |Words(s)| ==> IsWord(Words(s)[i])
    decreases |s|
  {
    var t := StripLeft(s);
    if t != [] {
      var w := TakeWord(t);
      var rest := Words(t[|w|..]);
      WordsStep(s);
      WordsAreWords(t[|w|..]);
      forall i | 0 <= i < |Words(s)|
        ensures IsWord(Words(s)[i])
      {
        if i > 0 {
          assert Words(s)[i] == rest[i - 1];
        }
      }
    }
  }

  /** `s.split()` is empty exactly when `s` is blank, and otherwise starts with
      `s.split()[0]`. */
  lemma WordsFirst(s: string)
    ensures Words(s) == [] <==> forall k :: 0 <= k < |s| ==> IsSpace(s[k])
    ensures Words(s) != [] ==> FirstToken(s) == Some(Words(s)[0])
  {
    var t := StripLeft(s);
    if t != [] {
      assert s[|s| - |t|] == t[0];
      WordsStep(s);
    }
  }

  /** `rstrip` of a text whose tail is not blank only trims that tail. */
  lemma {:induction false} StripRightAppend(x: string, y: string)
    requires StripRight(y) != []
    ensures StripRight(x + y) == x + StripRight(y)
    decreases |y|
  {
    var xy := x + y;
    assert xy[|xy| - 1] == y[|y| - 1];
    if IsSpace(y[|y| - 1]) {
      var y0 := y[..|y| - 1];
      assert xy[..|xy| - 1] == x + y0;
      StripRightAppend(x, y0);
    }
  }

  /** `rstrip` removes a blank tail along with whatever precedes it. */
  lemma {:induction false} StripRightBlank(x: string, y: string)
    requires forall k :: 0 <= k < |y| ==> IsSpace(y[k])
    ensures StripRight(x + y) == StripRight(x)
    decreases |y|
  {
    var xy := x + y;
    if |y| > 0 {
      assert xy[|xy| - 1] == y[|y| - 1];
      var y0 := y[..|y| - 1];
      assert xy[..|xy| - 1] == x + y0;
      StripRightBlank(x, y0);
    } else {
      assert xy == x;
    }
  }

  /** Splitting on `c` and joining with `c` gives the text back. */
  lemma {:induction false} JoinSplitOn(s: string, c: char)
    ensures Join(SplitOn(s, c), [c]) == s
  {
    if |s| > 0 {
      var rest := SplitOn(s[1..], c);
      JoinSplitOn(s[1..], c);
      if s[0] == c {
        assert SplitOn(s, c) == [""] + rest;
        assert s == [c] + s[1..];
      } else if |rest| == 1 {
        assert s == [s[0]] + s[1..];
      } else {
        assert SplitOn(s, c)[1..] == rest[1..];
        assert s == [s[0]] + s[1..];
      }
    }
  }

  /** Joining separator-free fields with `c` and splitting on `c` gives the
      fields back. */
  lemma {:induction false} SplitOnJoin(parts: seq<string>, c: char)
    requires |parts| >= 1
    requires forall k :: 0 <= k < |parts| ==> c !in parts[k]
    ensures SplitOn(Join(parts, [c]), c) == parts
  {
    if |parts| == 1 {
      SplitOnFree(parts[0], c);
    } else {
      SplitOnJoin(parts[1..], c);
      SplitOnSeparated(parts[0], Join(parts[1..], [c]), c);
    }
  }

  /** A separator-free text is a single field. */
  lemma {:induction false} SplitOnFree(s: string, c: char)
    requires c !in s
    ensures SplitOn(s, c) == [s]
  {
    if |s| > 0 {
      SplitOnFree(s[1..], c);
      assert s == [s[0]] + s[1..];
    }
  }

  /** A separator-free head, then the separator: the head is the first field. */
  lemma {:induction false} SplitOnSeparated(head: string, tail: string, c: char)
    requires c !in head
    ensures SplitOn(head + [c] + tail, c) == [head] + SplitOn(tail, c)
  {
    if |head| == 0 {
      assert head + [c] + tail == [c] + tail;
    } else {
      assert (head + [c] + tail)[1..] == head[1..] + [c] + tail;
      SplitOnSeparated(head[1..], tail, c);
      assert head == [head[0]] + head[1..];
    }
  }

  /** A text that neither starts nor ends with `c` and never has two `c` in a
      row splits on `c` into non-empty fields. */
  lemma {:induction false} SplitFieldsNonEmpty(s: string, c: char)
    requires s != [] && s[0] != c && s[|s| - 1] != c
    requires forall k :: 0 <= k < |s| - 1 ==> !(s[k] == c && s[k + 1] == c)
    ensures forall k :: 0 <= k < |SplitOn(s, c)| ==> SplitOn(s, c)[k] != ""
    decreases |s|
  {
    var rest := SplitOn(s[1..], c);
    if |s| > 1 {
      if s[1] != c {
        SplitFieldsNonEmpty(s[1..], c);
      } else {
        assert |s| > 2;
        SplitFieldsNonEmpty(s[2..], c);
        assert s[1..][1..] == s[2..];
        assert rest == [""] + SplitOn(s[2..], c);
      }
    }
  }
}
