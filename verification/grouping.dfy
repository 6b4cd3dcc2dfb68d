/** The greedy grouper `groupSimilarWord` (server/app.py:85-116): each word is
    compared with its predecessor only, and a failed comparison opens the next
    group. */
module Grouping {
  import opened Outcomes
  import opened Strings
  import opened Matching

  /** Every comparison the first loop makes is defined (no division by zero). */
  predicate AdjacentComparable(words: seq<string>) {
    forall i :: 0 < i < |words| ==> IsMatching(words[i - 1], words[i]).Ok?
  }

  /** The meaning of the marks: the first word is in group 0, and each later
      word stays in its predecessor's group exactly when the two match, else
      it opens the next group. Neighbours are named by the pair `i, j` with
      `j == i + 1` so that the quantifier has no `i + 1` term to trigger on,
      which would let the solver instantiate it without end. */
  predicate IsGrouping(words: seq<string>, marks: seq<nat>) {
    && |marks| == |words|
    && (|words| > 0 ==> marks[0] == 0)
    && forall i, j :: 0 <= i < |words| && 0 <= j < |words| && j == i + 1 ==>
         marks[j] == marks[i] + (if Similar(words[i], words[j]) then 0 else 1)
  }

  /** Marks are non-decreasing, grow by at most one per step, start at 0 and
      therefore cover 0..k without gaps. Neighbours are named by a pair, as in
      `IsGrouping`. */
  predicate Contiguous(marks: seq<nat>) {
    && (|marks| > 0 ==> marks[0] == 0)
    && forall i, j :: 0 <= i < |marks| && 0 <= j < |marks| && j == i + 1 ==> marks[j] == marks[i] || marks[j] == marks[i] + 1
  }

  /** The first loop (server/app.py:86-97): `samesame[i]` records whether word
      `i` matches word `i - 1`; `samesame[0] = False` fails on an empty list. */
  method SameAsPredecessor(words: seq<string>) returns (r: Result<seq<bool>>)
    ensures |words| == 0 ==> r == Err(IndexError)
    ensures |words| > 0 ==> (r.Ok? <==> AdjacentComparable(words))
    ensures r.Err? && |words| > 0 ==> r.error == ZeroDivisionError
    ensures r.Ok? ==> |r.value| == |words| && !r.value[0]
    ensures r.Ok? ==> forall i :: 0 < i < |words| ==> r.value[i] == Similar(words[i - 1], words[i])
  {
    var n := |words|;
    var samesame: seq<bool> := seq(n, _ => false);
    if n == 0 {
      return Err(IndexError);
    }
    samesame := samesame[0 := false];
    var i := 1;
    while i < n
      invariant 1 <= i <= n
      invariant |samesame| == n && !samesame[0]
      invariant forall k :: 0 < k < i ==> IsMatching(words[k - 1], words[k]).Ok?
      invariant forall k :: 0 < k < i ==> samesame[k] == Similar(words[k - 1], words[k])
    {
      var preWord := words[i - 1];
      var curWord := words[i];
      var m := IsMatching(preWord, curWord);
      if m.Err? {
        return Err(m.error);
      }
      samesame := samesame[i := m.value];
      i := i + 1;
    }
    return Ok(samesame);
  }

  /** The second loop (server/app.py:99-114): the running `groupIdx` is
      written to each position and advanced when the NEXT flag is false. */
  method MarksFromFlags(samesame: seq<bool>) returns (groupMark: seq<nat>)
    ensures |groupMark| == |samesame|
    ensures |samesame| > 0 ==> groupMark[0] == 0
    ensures forall i :: 0 < i < |samesame| ==>
      groupMark[i] == groupMark[i - 1] + (if samesame[i] then 0 else 1)
  {
    var n := |samesame|;
    var i := 0;
    var groupIdx: nat := 0;
    groupMark := seq(n, _ => 0);
    while i < n
      invariant 0 <= i <= n
      invariant |groupMark| == n
      invariant i == 0 ==> groupIdx == 0
      invariant 0 < i < n ==> groupIdx == groupMark[i - 1] + (if samesame[i] then 0 else 1)
      invariant n > 0 && i > 0 ==> groupMark[0] == 0
      invariant forall k :: 0 < k < i ==>
        groupMark[k] == groupMark[k - 1] + (if samesame[k] then 0 else 1)
    {
      var nextIdx := i + 1;
      if nextIdx < n {
        if samesame[nextIdx] {
          groupMark := groupMark[i := groupIdx];
        } else {
          groupMark := groupMark[i := groupIdx];
          groupIdx := groupIdx + 1;
        }
      } else {
        groupMark := groupMark[i := groupIdx];
      }
      i := i + 1;
    }
  }

  /** `groupSimilarWord(words)` (server/app.py:85-116). */
  method GroupSimilarWord(words: seq<string>) returns (r: Result<seq<nat>>)
    ensures |words| == 0 ==> r == Err(IndexError)
    ensures |words| > 0 ==> (r.Ok? <==> AdjacentComparable(words))
    ensures r.Err? && |words| > 0 ==> r.error == ZeroDivisionError
    ensures r.Ok? ==> IsGrouping(words, r.value)
  {
    var same := SameAsPredecessor(words);
    if same.Err? {
      return Err(same.error);
    }
    var marks := MarksFromFlags(same.value);
    return Ok(marks);
  }

  // ---------------------------------------------------------------------------
  // Properties of the marks

  /** The marks are a function of the words: at most one sequence is a
      grouping of them. */
  lemma {:induction false} GroupingIsUnique(words: seq<string>, m1: seq<nat>, m2: seq<nat>)
    requires IsGrouping(words, m1) && IsGrouping(words, m2)
    ensures m1 == m2
  {
    forall i | 0 <= i < |words| ensures m1[i] == m2[i] {
      GroupingPrefixAgrees(words, m1, m2, i);
    }
  }

  lemma {:induction false} GroupingPrefixAgrees(words: seq<string>, m1: seq<nat>, m2: seq<nat>, i: nat)
    requires IsGrouping(words, m1) && IsGrouping(words, m2) && i < |words|
    ensures m1[i] == m2[i]
    decreases i
  {
    if i > 0 {
      GroupingPrefixAgrees(words, m1, m2, i - 1);
    }
  }

  lemma GroupingIsContiguous(words: seq<string>, marks: seq<nat>)
    requires IsGrouping(words, marks)
    ensures Contiguous(marks)
  {
  }

  /** Consecutive marks differ by 0 exactly when the words match. */
  lemma GroupingSteps(words: seq<string>, marks: seq<nat>, i: nat)
    requires IsGrouping(words, marks) && i + 1 < |words|
    ensures marks[i + 1] - marks[i] == 0 || marks[i + 1] - marks[i] == 1
    ensures marks[i + 1] == marks[i] <==> Similar(words[i], words[i + 1])
  {
  }

  /** Between positions `i <= j` the mark grows by at most `j - i`. */
  lemma {:induction false} ContiguousBounds(marks: seq<nat>, i: nat, j: nat)
    requires Contiguous(marks) && i <= j < |marks|
    ensures marks[i] <= marks[j] <= marks[i] + (j - i)
    decreases j - i
  {
    if i < j {
      ContiguousBounds(marks, i, j - 1);
    }
  }

  /** Every mark from 0 to the last one is used: the groups are 0..k. */
  lemma {:induction false} ContiguousCovers(marks: seq<nat>, g: nat)
    requires Contiguous(marks) && |marks| > 0 && g <= marks[|marks| - 1]
    ensures exists i :: 0 <= i < |marks| && marks[i] == g
    decreases |marks|
  {
    var last := |marks| - 1;
    if g < marks[last] {
      assert last > 0;
      ContiguousCovers(marks[..last], g);
      var i :| 0 <= i < last && marks[..last][i] == g;
      assert marks[i] == g;
    } else {
      assert marks[last] == g;
    }
  }

  /** On sorted words, equal words always carry the same mark: every word
      between two copies is another copy, and a word matches itself. */
  lemma {:induction false} EqualWordsShareMark(words: seq<string>, marks: seq<nat>, i: nat, j: nat)
    requires IsGrouping(words, marks) && Sorted(words)
    requires i <= j < |words| && words[i] == words[j]
    ensures marks[i] == marks[j]
    decreases j - i
  {
    if i < j {
      LexLeAntisymmetric(words[i], words[i + 1]) by {
        assert LexLe(words[i + 1], words[j]);
      }
      MatchingReflexive(words[i]);
      EqualWordsShareMark(words, marks, i + 1, j);
    }
  }
}
