/** Sequence notions shared by the scripts: first-appearance de-duplication
    (pandas `Series.unique()` and the key order of an insertion-ordered dict)
    and "a subsequence of the input, in input order" (what every filter loop
    of the scripts produces). */
module Seqs {

  /** No element occurs twice. */
  predicate NoDups<T(==)>(s: seq<T>) {
    forall i, j :: 0 <= i < j < |s| ==> s[i] != s[j]
  }

  /** The distinct elements of `s`, each once, in order of first appearance. */
  function Distinct<T(==, !new)>(s: seq<T>): (r: seq<T>)
    ensures NoDups(r)
    ensures forall x :: x in r <==> x in s
    ensures |r| <= |s|
  {
    if |s| == 0 then []
    else
      var d := Distinct(s[..|s| - 1]);
      assert s == s[..|s| - 1] + [s[|s| - 1]];
      if s[|s| - 1] in d then d else d + [s[|s| - 1]]
  }

  /** The position of the first occurrence of `x` in `s`. */
  function FirstIndex<T(==)>(s: seq<T>, x: T): (k: nat)
    requires x in s
    ensures k < |s| && s[k] == x && x !in s[..k]
  {
    if s[0] == x then 0
    else
      var k := FirstIndex(s[1..], x);
      assert s[..k + 1] == [s[0]] + s[1..][..k];
      1 + k
  }

  /** `a` is obtained from `b` by deleting elements; what is kept stays in order. */
  predicate IsSubsequence<T(==)>(a: seq<T>, b: seq<T>)
    decreases |b|
  {
    if |b| == 0 then |a| == 0
    else
      IsSubsequence(a, b[..|b| - 1])
      || (|a| > 0 && a[|a| - 1] == b[|b| - 1] && IsSubsequence(a[..|a| - 1], b[..|b| - 1]))
  }

  /** Distinct, one element further. */
  lemma DistinctAppend<T(!new)>(s: seq<T>, x: T)
    ensures Distinct(s + [x]) == if x in Distinct(s) then Distinct(s) else Distinct(s) + [x]
  {
    assert (s + [x])[..|s|] == s;
  }

  /** The three facts of FirstIndex's contract pin the index down. */
  lemma FirstIndexUnique<T>(s: seq<T>, x: T, k: nat)
    requires k < |s| && s[k] == x && x !in s[..k]
    ensures FirstIndex(s, x) == k
  {
  }

  /** Appending an element does not move the first occurrence of an element
      already present. */
  lemma FirstIndexAppend<T>(s: seq<T>, y: T, x: T)
    requires x in s
    ensures x in s + [y] && FirstIndex(s + [y], x) == FirstIndex(s, x)
  {
    var k := FirstIndex(s, x);
    assert (s + [y])[..k] == s[..k];
    FirstIndexUnique(s + [y], x, k);
  }

  /** Distinct lists its elements in the order of their first appearance in
      the input: this, with NoDups and the membership equivalence, fixes
      Distinct(s) uniquely. */
  lemma {:induction false} DistinctFirstSeen<T(!new)>(s: seq<T>)
    ensures forall i, j :: 0 <= i < j < |Distinct(s)| ==>
      FirstIndex(s, Distinct(s)[i]) < FirstIndex(s, Distinct(s)[j])
  {
    if |s| > 0 {
      var s0, x := s[..|s| - 1], s[|s| - 1];
      assert s == s0 + [x];
      var d := Distinct(s0);
      DistinctFirstSeen(s0);
      forall e | e in d
        ensures FirstIndex(s, e) == FirstIndex(s0, e)
      {
        FirstIndexAppend(s0, x, e);
      }
      if x !in d {
        assert Distinct(s) == d + [x];
        assert x !in s0;
        assert s[..|s0|] == s0;
        FirstIndexUnique(s, x, |s0|);
        forall i, j | 0 <= i < j < |Distinct(s)|
          ensures FirstIndex(s, Distinct(s)[i]) < FirstIndex(s, Distinct(s)[j])
        {
          if j == |d| {
            assert Distinct(s)[i] == d[i];
            assert FirstIndex(s, d[i]) == FirstIndex(s0, d[i]) < |s0|;
          } else {
            assert Distinct(s)[i] == d[i] && Distinct(s)[j] == d[j];
          }
        }
      }
    }
  }

  /** The multiset of a non-empty sequence, its last element split off. */
  lemma MultisetLast<T>(s: seq<T>)
    requires |s| > 0
    ensures multiset(s) == multiset(s[..|s| - 1]) + multiset{s[|s| - 1]}
  {
    assert s == s[..|s| - 1] + [s[|s| - 1]];
  }

  /** No element occurs twice iff every element occurs at most once. */
  lemma {:induction false} NoDupsCounts<T>(s: seq<T>)
    ensures NoDups(s) <==> forall x :: multiset(s)[x] <= 1
  {
    if |s| > 0 {
      var s0, y := s[..|s| - 1], s[|s| - 1];
      NoDupsCounts(s0);
      MultisetLast(s);
      if NoDups(s) {
        assert NoDups(s0) by {
          forall i, j | 0 <= i < j < |s0|
            ensures s0[i] != s0[j]
          {
            assert s0[i] == s[i] && s0[j] == s[j];
          }
        }
        assert y !in s0;
      } else {
        var i, j :| 0 <= i < j < |s| && s[i] == s[j];
        if j < |s| - 1 {
          assert s0[i] == s0[j];
          var x :| multiset(s0)[x] > 1;
          assert multiset(s)[x] > 1;
        } else {
          assert s0[i] == y;
          assert multiset(s)[y] > 1;
        }
      }
    }
  }

  /** A permutation of a sequence without repetitions has none either. */
  lemma PermutationNoDups<T>(s: seq<T>, t: seq<T>)
    requires NoDups(s) && multiset(s) == multiset(t)
    ensures NoDups(t)
  {
    NoDupsCounts(s);
    NoDupsCounts(t);
  }

  /** A prefix, one element longer. */
  lemma PrefixExtend<T>(s: seq<T>, i: nat)
    requires i < |s|
    ensures s[..i + 1] == s[..i] + [s[i]]
  {
  }

  /** A non-empty sequence before another, its head split off. */
  lemma ConsSplit<T>(w: seq<T>, rest: seq<T>)
    requires |w| > 0
    ensures w + rest == [w[0]] + (w[1..] + rest)
  {
  }

  /** Nothing before `rest` is `rest`. */
  lemma EmptyAppend<T>(w: seq<T>, rest: seq<T>)
    requires |w| == 0
    ensures w + rest == rest
  {
  }

  /** Concatenation is associative. */
  lemma AppendAssoc<T>(a: seq<T>, b: seq<T>, c: seq<T>)
    ensures a + b + c == a + (b + c)
  {
  }

  /** A sequence is its first `n` elements followed by the rest. */
  lemma TakeDrop<T>(s: seq<T>, n: nat)
    requires n <= |s|
    ensures s[..n] + s[n..] == s
  {
  }
}
