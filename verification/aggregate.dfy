/** The aggregator, the body of `wordCalculator` (server/app.py:119-175):
    tokenize, index capitals, drop stop words, sort, group, restore spellings,
    collect the distinct spellings and the token count of every group, and
    rank the groups by count. */
module Aggregate {
  import opened Outcomes
  import opened Seqs
  import opened Strings
  import opened Tokenizer
  import opened Capitals
  import opened StopFilter
  import opened Grouping
  import opened Sorting
  import opened Matching

  /** One record of the result: the distinct spellings of a group and the
      number of tokens in it. */
  datatype WordGroup = WordGroup(words: seq<string>, count: nat)

  /** The number of groups the marks describe: marks run over 0..k. */
  function GroupCount(marks: seq<nat>): nat {
    if |marks| == 0 then 0 else marks[|marks| - 1] + 1
  }

  /** The values at the positions carrying mark `g`, in order. */
  function Members(values: seq<string>, marks: seq<nat>, g: nat): (r: seq<string>)
    requires |values| == |marks|
    ensures |r| == multiset(marks)[g]
    decreases |marks|
  {
    if |marks| == 0 then []
    else
      var n := |marks| - 1;
      assert marks == marks[..n] + [marks[n]];
      var front := Members(values[..n], marks[..n], g);
      if marks[n] == g then front + [values[n]] else front
  }

  /** The loop that builds `words` (server/app.py:154-164): row by row, a
      spelling is appended to the list of its group unless already there,
      and a group index not yet seen opens a new list at the end. */
  function CollectSpellings(origins: seq<string>, marks: seq<nat>): seq<seq<string>>
    requires |origins| == |marks|
    decreases |marks|
  {
    if |marks| == 0 then []
    else
      var n := |marks| - 1;
      var words := CollectSpellings(origins[..n], marks[..n]);
      var i := marks[n];
      var word := origins[n];
      if |words| > i then
        if word !in words[i] then words[i := words[i] + [word]] else words
      else words + [[word]]
  }

  /** `dict(Counter(groups)).items()` (server/app.py:165-168): each distinct
      mark in order of first appearance, with its number of occurrences. */
  function CounterItems(marks: seq<nat>): seq<(nat, nat)> {
    var keys := Distinct(marks);
    seq(|keys|, j requires 0 <= j < |keys| => (keys[j], multiset(marks)[keys[j]]))
  }

  /** `countDf` with its `words` column (server/app.py:165-170): row `j`
      pairs the `j`-th counter item with the `j`-th spelling list, by
      position. For marks that run over 0..k the two line up: row `g` holds
      exactly the group `g`. */
  function CountTable(origins: seq<string>, marks: seq<nat>): (groups: seq<WordGroup>)
    requires |origins| == |marks| && Contiguous(marks)
    ensures |groups| == GroupCount(marks)
  {
    var words := CollectSpellings(origins, marks);
    var items := CounterItems(marks);
    CollectSpellingsMeaning(origins, marks);
    DistinctOfContiguous(marks);
    seq(|items|, j requires 0 <= j < |items| => WordGroup(words[j], items[j].1))
  }

  /** Row `g` of `countDf` is group `g`: its distinct spellings in
      sorted-token order, and the number of tokens carrying mark `g`. */
  lemma AggregateRow(origins: seq<string>, marks: seq<nat>, g: nat)
    requires |origins| == |marks| && Contiguous(marks) && g < GroupCount(marks)
    ensures CountTable(origins, marks)[g] ==
      WordGroup(Distinct(Members(origins, marks, g)), multiset(marks)[g])
  {
    CollectSpellingsMeaning(origins, marks);
    DistinctOfContiguous(marks);
  }

  function SumCounts(groups: seq<WordGroup>): nat {
    if |groups| == 0 then 0 else groups[0].count + SumCounts(groups[1..])
  }

  predicate CountsNonIncreasing(groups: seq<WordGroup>) {
    forall i, j :: 0 <= i < j < |groups| ==> groups[i].count >= groups[j].count
  }

  /** Inserting one row into rows ranked by descending count. */
  function InsertByCount(x: WordGroup, s: seq<WordGroup>): (r: seq<WordGroup>)
    requires CountsNonIncreasing(s)
    ensures CountsNonIncreasing(r)
    ensures multiset(r) == multiset(s) + multiset{x}
    ensures SumCounts(r) == SumCounts(s) + x.count
    decreases |s|
  {
    if |s| == 0 then [x]
    else if x.count >= s[0].count then
      assert ([x] + s)[1..] == s;
      [x] + s
    else
      var rest := InsertByCount(x, s[1..]);
      InsertBelowHead(x, s, rest);
      [s[0]] + rest
  }

  /** Inserting a row below the head of a ranking: the head followed by the
      insertion into the tail is the insertion into the whole. */
  lemma InsertBelowHead(x: WordGroup, s: seq<WordGroup>, rest: seq<WordGroup>)
    requires CountsNonIncreasing(s) && |s| > 0 && x.count < s[0].count
    requires CountsNonIncreasing(rest)
    requires multiset(rest) == multiset(s[1..]) + multiset{x}
    requires SumCounts(rest) == SumCounts(s[1..]) + x.count
    ensures CountsNonIncreasing([s[0]] + rest)
    ensures multiset([s[0]] + rest) == multiset(s) + multiset{x}
    ensures SumCounts([s[0]] + rest) == SumCounts(s) + x.count
  {
    assert s == [s[0]] + s[1..];
    HeadBoundsInsertion(x, s, rest);
    PrependKeepsRanking(s[0], rest);
    assert ([s[0]] + rest)[1..] == rest;
  }

  /** The head of a ranking counts at least as much as every row after it,
      and as a smaller row inserted among them. */
  lemma HeadBoundsInsertion(x: WordGroup, s: seq<WordGroup>, rest: seq<WordGroup>)
    requires CountsNonIncreasing(s) && |s| > 0 && x.count < s[0].count
    requires multiset(rest) == multiset(s[1..]) + multiset{x}
    ensures forall y :: y in multiset(rest) ==> s[0].count >= y.count
  {
    forall y | y in multiset(rest) ensures s[0].count >= y.count {
      if y != x {
        assert y in s[1..];
        var j :| 0 <= j < |s[1..]| && s[1..][j] == y;
        assert s[j + 1] == y;
      }
    }
  }

  /** A row counting at least as much as every row of a ranking can head it. */
  lemma PrependKeepsRanking(h: WordGroup, rest: seq<WordGroup>)
    requires CountsNonIncreasing(rest)
    requires forall y :: y in multiset(rest) ==> h.count >= y.count
    ensures CountsNonIncreasing([h] + rest)
  {
    var r := [h] + rest;
    forall i, j | 0 <= i < j < |r| ensures r[i].count >= r[j].count {
      if i == 0 {
        assert r[j] == rest[j - 1] && rest[j - 1] in multiset(rest);
      } else {
        assert r[i] == rest[i - 1] && r[j] == rest[j - 1];
      }
    }
  }

  /** `countDf.sort_values(by='count', ascending=False)` (server/app.py:173). */
  function SortByCount(groups: seq<WordGroup>): (r: seq<WordGroup>)
    ensures CountsNonIncreasing(r)
    ensures multiset(r) == multiset(groups)
    ensures SumCounts(r) == SumCounts(groups)
  {
    if |groups| == 0 then []
    else
      assert groups == [groups[0]] + groups[1..];
      InsertByCount(groups[0], SortByCount(groups[1..]))
  }

  /** The tokens that reach the grouper: the lower-cased raw tokens that are
      not in `stops`, in token order. */
  function NonStopTokens(rawWords: seq<string>, stops: set<string>): seq<string> {
    RemoveStopWords(LowerAll(rawWords), stops)
  }

  // ---------------------------------------------------------------------------
  // Predicates on the result

  /** No lower-case form is spelled in two different groups. */
  predicate SeparateGroups(groups: seq<WordGroup>) {
    forall i, j, s1, s2 ::
      (0 <= i < |groups| && 0 <= j < |groups| && i != j &&
       s1 in groups[i].words && s2 in groups[j].words) ==> Lower(s1) != Lower(s2)
  }

  /** A group lists at least one spelling, none twice, and counts at least
      one token per spelling. */
  predicate WellFormedGroup(grp: WordGroup) {
    |grp.words| > 0 && NoDuplicates(grp.words) && grp.count >= |grp.words|
  }

  /** `s` may be shown for the surviving tokens `nonStop` of the raw tokens
      `rawWords`: it lower-cases to a surviving token, is that token or a
      capital word of the text, and is a capital word exactly when the text
      holds a capital spelling of that token. */
  predicate ShownSpelling(s: string, nonStop: seq<string>, rawWords: seq<string>) {
    && Lower(s) in nonStop
    && (s in nonStop || (IsCapitalWord(s) && s in rawWords))
    && (IsCapitalWord(s) <==> HasCapitalSpelling(Lower(s), rawWords))
  }

  /** No group shows a spelling whose lower-case form is in `stops`. */
  predicate NoStopSpelling(groups: seq<WordGroup>, stops: set<string>) {
    forall grp, s :: grp in groups && s in grp.words ==> Lower(s) !in stops
  }

  /** Some group shows a spelling of the lower-case token `t`. */
  predicate SpelledIn(t: string, groups: seq<WordGroup>) {
    exists i, s :: 0 <= i < |groups| && s in groups[i].words && Lower(s) == t
  }

  // ---------------------------------------------------------------------------
  // Lemmas

  lemma ContiguousPrefix(marks: seq<nat>, n: nat)
    requires Contiguous(marks) && n <= |marks|
    ensures Contiguous(marks[..n])
  {
  }

  /** Marks that run over 0..k appear first in the order 0, 1, ..., k. */
  lemma {:induction false} DistinctOfContiguous(marks: seq<nat>)
    requires Contiguous(marks)
    ensures Distinct(marks) == Range(GroupCount(marks))
    decreases |marks|
  {
    if |marks| > 0 {
      var n := |marks| - 1;
      var p := marks[..n];
      assert marks == p + [marks[n]];
      ContiguousPrefix(marks, n);
      DistinctOfContiguous(p);
      DistinctSnoc(p, marks[n]);
      if n > 0 {
        if marks[n] == marks[n - 1] {
          assert marks[n] in p by { assert p[n - 1] == marks[n]; }
        } else {
          assert marks[n] !in p by {
            forall k | 0 <= k < n ensures p[k] < marks[n] {
              ContiguousBounds(marks, k, n - 1);
            }
          }
        }
      }
    }
  }

  /** A value is a member of group `g` exactly when some position with mark
      `g` holds it. */
  lemma {:induction false} MembersElements(values: seq<string>, marks: seq<nat>, g: nat, v: string)
    requires |values| == |marks|
    ensures v in Members(values, marks, g) <==>
      exists k :: 0 <= k < |marks| && marks[k] == g && values[k] == v
    decreases |marks|
  {
    if |marks| > 0 {
      var n := |marks| - 1;
      MembersElements(values[..n], marks[..n], g, v);
      assert forall k :: 0 <= k < n ==> marks[..n][k] == marks[k] && values[..n][k] == values[k];
    }
  }

  /** The spelling lists: list `g` holds the distinct spellings of group `g`
      in sorted-token order. */
  lemma {:induction false} CollectSpellingsMeaning(origins: seq<string>, marks: seq<nat>)
    requires |origins| == |marks| && Contiguous(marks)
    ensures |CollectSpellings(origins, marks)| == GroupCount(marks)
    ensures forall g :: 0 <= g < GroupCount(marks) ==>
      CollectSpellings(origins, marks)[g] == Distinct(Members(origins, marks, g))
    decreases |marks|
  {
    if |marks| > 0 {
      var n := |marks| - 1;
      var p := marks[..n];
      var po := origins[..n];
      var w := origins[n];
      var i := marks[n];
      var words := CollectSpellings(po, p);
      var r := CollectSpellings(origins, marks);
      ContiguousPrefix(marks, n);
      CollectSpellingsMeaning(po, p);
      assert r == if |words| > i then (if w !in words[i] then words[i := words[i] + [w]] else words)
                  else words + [[w]];
      if n > 0 && i == marks[n - 1] {
        assert |r| == |words|;
        forall g | 0 <= g < GroupCount(marks)
          ensures r[g] == Distinct(Members(origins, marks, g))
        {
          if g == i {
            DistinctSnoc(Members(po, p, i), w);
          }
        }
      } else {
        assert |words| == i by {
          if n > 0 {
            assert GroupCount(p) == marks[n - 1] + 1;
          }
        }
        assert Members(po, p, i) == [] by {
          forall k | 0 <= k < n ensures p[k] < i {
            ContiguousBounds(marks, k, n - 1);
          }
          assert multiset(p)[i] == 0;
        }
        DistinctSnoc([], w);
        assert r[i] == Distinct(Members(origins, marks, i));
      }
    }
  }

  lemma {:induction false} SumCountsSnoc(s: seq<WordGroup>, x: WordGroup)
    ensures SumCounts(s + [x]) == SumCounts(s) + x.count
    decreases |s|
  {
    if |s| > 0 {
      assert (s + [x])[1..] == s[1..] + [x];
      SumCountsSnoc(s[1..], x);
    }
  }

  /** The number of marks below `n`. */
  function MarksBelow(marks: seq<nat>, n: nat): nat {
    if n == 0 then 0 else MarksBelow(marks, n - 1) + multiset(marks)[n - 1]
  }

  lemma {:induction false} MarksBelowSnoc(marks: seq<nat>, x: nat, n: nat)
    ensures MarksBelow(marks + [x], n) == MarksBelow(marks, n) + (if x < n then 1 else 0)
  {
    if n > 0 {
      MarksBelowSnoc(marks, x, n - 1);
    }
  }

  lemma {:induction false} MarksBelowAll(marks: seq<nat>, n: nat)
    requires forall k :: 0 <= k < |marks| ==> marks[k] < n
    ensures MarksBelow(marks, n) == |marks|
    decreases |marks|, n
  {
    if |marks| == 0 {
      if n > 0 {
        MarksBelowAll(marks, n - 1);
      }
    } else {
      var p := marks[..|marks| - 1];
      assert marks == p + [marks[|marks| - 1]];
      MarksBelowAll(p, n);
      MarksBelowSnoc(p, marks[|marks| - 1], n);
    }
  }

  /** The counts of the groups add up to the number of tokens grouped. */
  lemma {:induction false} AggregateCountsSum(origins: seq<string>, marks: seq<nat>)
    requires |origins| == |marks| && Contiguous(marks)
    ensures SumCounts(CountTable(origins, marks)) == |marks|
  {
    var groups := CountTable(origins, marks);
    var m := 0;
    while m < |groups|
      invariant m <= |groups|
      invariant SumCounts(groups[..m]) == MarksBelow(marks, m)
    {
      AggregateRow(origins, marks, m);
      assert groups[..m + 1] == groups[..m] + [groups[m]];
      SumCountsSnoc(groups[..m], groups[m]);
      m := m + 1;
    }
    assert groups[..|groups|] == groups;
    if |marks| > 0 {
      forall k | 0 <= k < |marks| ensures marks[k] < |groups| {
        ContiguousBounds(marks, k, |marks| - 1);
      }
    }
    MarksBelowAll(marks, |groups|);
  }

  /** Every group lists its distinct spellings, at least one, and counts at
      least one token per spelling; every spelling is a restored token. */
  lemma AggregateWellFormed(origins: seq<string>, marks: seq<nat>)
    requires |origins| == |marks| && Contiguous(marks)
    ensures forall grp :: grp in CountTable(origins, marks) ==> WellFormedGroup(grp)
    ensures forall grp, s :: grp in CountTable(origins, marks) && s in grp.words ==> s in origins
  {
    var groups := CountTable(origins, marks);
    forall g | 0 <= g < |groups|
      ensures WellFormedGroup(groups[g])
      ensures forall s :: s in groups[g].words ==> s in origins
    {
      AggregateRow(origins, marks, g);
      ContiguousCovers(marks, g);
      var k :| 0 <= k < |marks| && marks[k] == g;
      MembersElements(origins, marks, g, origins[k]);
      forall s | s in groups[g].words ensures s in origins {
        MembersElements(origins, marks, g, s);
      }
    }
  }

  /** Every token's restored spelling is listed in the group of its mark. */
  lemma AggregateCovers(origins: seq<string>, marks: seq<nat>, k: nat)
    requires |origins| == |marks| && Contiguous(marks) && k < |marks|
    ensures marks[k] < |CountTable(origins, marks)|
    ensures origins[k] in CountTable(origins, marks)[marks[k]].words
  {
    ContiguousBounds(marks, k, |marks| - 1);
    AggregateRow(origins, marks, marks[k]);
    MembersElements(origins, marks, marks[k], origins[k]);
  }

  /** One spelling of a lower-case form in group `i` and one in group `j`
      force `i == j`: sorted copies of a token share a mark. */
  lemma SpellingsPinGroup(words: seq<string>, origins: seq<string>, marks: seq<nat>,
                          i: nat, j: nat, s1: string, s2: string)
    requires IsGrouping(words, marks) && Sorted(words) && |origins| == |words|
    requires forall k :: 0 <= k < |words| ==> Lower(origins[k]) == words[k]
    requires Contiguous(marks) && i < GroupCount(marks) && j < GroupCount(marks)
    requires s1 in CountTable(origins, marks)[i].words && s2 in CountTable(origins, marks)[j].words
    requires Lower(s1) == Lower(s2)
    ensures i == j
  {
    AggregateRow(origins, marks, i);
    AggregateRow(origins, marks, j);
    MembersElements(origins, marks, i, s1);
    MembersElements(origins, marks, j, s2);
    var k1 :| 0 <= k1 < |marks| && marks[k1] == i && origins[k1] == s1;
    var k2 :| 0 <= k2 < |marks| && marks[k2] == j && origins[k2] == s2;
    if k1 <= k2 {
      EqualWordsShareMark(words, marks, k1, k2);
    } else {
      EqualWordsShareMark(words, marks, k2, k1);
    }
  }

  /** On sorted lower-case tokens with their restored spellings, no
      lower-case form appears in two groups, so no two rows are equal. */
  lemma AggregateSeparate(words: seq<string>, origins: seq<string>, marks: seq<nat>)
    requires IsGrouping(words, marks) && Sorted(words) && |origins| == |words|
    requires forall k :: 0 <= k < |words| ==> Lower(origins[k]) == words[k]
    ensures Contiguous(marks)
    ensures SeparateGroups(CountTable(origins, marks))
    ensures NoDuplicates(CountTable(origins, marks))
  {
    GroupingIsContiguous(words, marks);
    var groups := CountTable(origins, marks);
    forall i, j, s1, s2 | 0 <= i < |groups| && 0 <= j < |groups| && i != j &&
      s1 in groups[i].words && s2 in groups[j].words
      ensures Lower(s1) != Lower(s2)
    {
      if Lower(s1) == Lower(s2) {
        SpellingsPinGroup(words, origins, marks, i, j, s1, s2);
      }
    }
    AggregateWellFormed(origins, marks);
    forall i, j | 0 <= i < j < |groups| ensures groups[i] != groups[j] {
      assert groups[i] in groups;
      var s := groups[i].words[0];
      if groups[i] == groups[j] {
        SpellingsPinGroup(words, origins, marks, i, j, s, s);
      }
    }
  }

  /** The row properties survive the ranking, which only permutes rows. */
  lemma RankingKeepsGroups(groups: seq<WordGroup>, ranked: seq<WordGroup>)
    requires multiset(ranked) == multiset(groups)
    requires SeparateGroups(groups) && NoDuplicates(groups)
    ensures SeparateGroups(ranked)
    ensures forall grp :: grp in ranked <==> grp in groups
  {
    NoDuplicatesPermutation(groups, ranked);
    assert forall grp :: grp in ranked <==> grp in groups by {
      forall grp ensures grp in ranked <==> grp in groups {
        assert grp in ranked <==> grp in multiset(ranked);
        assert grp in groups <==> grp in multiset(groups);
      }
    }
    forall i, j, s1, s2 | 0 <= i < |ranked| && 0 <= j < |ranked| && i != j &&
      s1 in ranked[i].words && s2 in ranked[j].words
      ensures Lower(s1) != Lower(s2)
    {
      assert ranked[i] in groups && ranked[j] in groups;
      var p :| 0 <= p < |groups| && groups[p] == ranked[i];
      var q :| 0 <= q < |groups| && groups[q] == ranked[j];
    }
  }

  /** Every token reaching the grouper is a lower-case token of the text
      outside `stops`. */
  lemma NonStopTokensShape(rawWords: seq<string>, stops: set<string>)
    ensures forall t :: t in NonStopTokens(rawWords, stops) ==>
      t !in stops && IsLowerCase(t) && t in LowerAll(rawWords)
  {
    var lowerWords := LowerAll(rawWords);
    forall t | t in NonStopTokens(rawWords, stops) ensures IsLowerCase(t) {
      var i :| 0 <= i < |lowerWords| && lowerWords[i] == t;
      LowerIsLowerCase(rawWords[i]);
    }
  }

  /** A group list whose every spelling is shown for the tokens surviving
      `stops` spells no stop word. */
  lemma ShownSpellingsAvoidStops(groups: seq<WordGroup>, rawWords: seq<string>, stops: set<string>)
    requires forall grp, s :: grp in groups && s in grp.words ==>
      ShownSpelling(s, NonStopTokens(rawWords, stops), rawWords)
    ensures NoStopSpelling(groups, stops)
  {
    NonStopTokensShape(rawWords, stops);
    forall grp, s | grp in groups && s in grp.words ensures Lower(s) !in stops {
      assert ShownSpelling(s, NonStopTokens(rawWords, stops), rawWords);
      assert Lower(s) in NonStopTokens(rawWords, stops);
    }
  }

  /** `[toOriginWord(word, capitalWords) for word in ...]`
      (server/app.py:150-151). */
  function RestoreSpellings(words: seq<string>, dict: map<string, string>): (r: seq<string>)
    ensures |r| == |words|
    ensures forall k :: 0 <= k < |words| ==> r[k] == ToOriginWord(words[k], dict)
  {
    seq(|words|, k requires 0 <= k < |words| => ToOriginWord(words[k], dict))
  }

  /** The sorted column holds the surviving tokens; without the empty string
      among them, every comparison of neighbours is defined. */
  lemma SortedTokensFacts(rawWords: seq<string>, stops: set<string>, sorted: seq<string>)
    requires multiset(sorted) == multiset(NonStopTokens(rawWords, stops))
    ensures |sorted| == |NonStopTokens(rawWords, stops)|
    ensures forall t :: t in sorted <==> t in NonStopTokens(rawWords, stops)
    ensures "" in stops ==> AdjacentComparable(sorted)
  {
    var nonStop := NonStopTokens(rawWords, stops);
    assert |multiset(sorted)| == |multiset(nonStop)|;
    forall t ensures t in sorted <==> t in nonStop {
      assert t in sorted <==> t in multiset(sorted);
      assert t in nonStop <==> t in multiset(nonStop);
    }
    if "" in stops {
      forall i | 0 < i < |sorted| ensures IsMatching(sorted[i - 1], sorted[i]).Ok? {
        assert sorted[i - 1] in nonStop && sorted[i] in nonStop;
      }
    }
  }

  /** Each restored spelling lower-cases back to its token and is the token
      itself or a capital word of the text. */
  lemma RestoredFacts(rawWords: seq<string>, stops: set<string>, sorted: seq<string>)
    requires forall t :: t in sorted ==> t in NonStopTokens(rawWords, stops)
    ensures forall k :: 0 <= k < |sorted| ==>
      Lower(RestoreSpellings(sorted, ToCapitalWords(rawWords))[k]) == sorted[k]
    ensures forall k :: 0 <= k < |sorted| ==>
      var s := RestoreSpellings(sorted, ToCapitalWords(rawWords))[k];
      s == sorted[k] || (IsCapitalWord(s) && s in rawWords)
    ensures forall k :: 0 <= k < |sorted| ==>
      (HasCapitalSpelling(sorted[k], rawWords) <==>
       IsCapitalWord(RestoreSpellings(sorted, ToCapitalWords(rawWords))[k]))
  {
    NonStopTokensShape(rawWords, stops);
    var origins := RestoreSpellings(sorted, ToCapitalWords(rawWords));
    forall k | 0 <= k < |sorted|
      ensures Lower(origins[k]) == sorted[k]
      ensures origins[k] == sorted[k] || (IsCapitalWord(origins[k]) && origins[k] in rawWords)
      ensures HasCapitalSpelling(sorted[k], rawWords) <==> IsCapitalWord(origins[k])
    {
      assert sorted[k] in sorted;
      OriginWordRestoresSpelling(sorted[k], rawWords);
    }
  }

  /** The ranked groups of sorted, marked tokens and their restored
      spellings. */
  function Rank(sorted: seq<string>, marks: seq<nat>, dict: map<string, string>): seq<WordGroup>
    requires IsGrouping(sorted, marks)
  {
    GroupingIsContiguous(sorted, marks);
    SortByCount(CountTable(RestoreSpellings(sorted, dict), marks))
  }

  /** The ranking is by descending count and the counts add up to the
      number of surviving tokens. */
  lemma RankCounts(rawWords: seq<string>, stops: set<string>, sorted: seq<string>, marks: seq<nat>)
    requires IsGrouping(sorted, marks)
    requires multiset(sorted) == multiset(NonStopTokens(rawWords, stops))
    ensures CountsNonIncreasing(Rank(sorted, marks, ToCapitalWords(rawWords)))
    ensures SumCounts(Rank(sorted, marks, ToCapitalWords(rawWords))) == |NonStopTokens(rawWords, stops)|
  {
    SortedTokensFacts(rawWords, stops, sorted);
    GroupingIsContiguous(sorted, marks);
    AggregateCountsSum(RestoreSpellings(sorted, ToCapitalWords(rawWords)), marks);
  }

  /** The groups are well formed and keep lower-case forms apart. */
  lemma RankSeparate(rawWords: seq<string>, stops: set<string>, sorted: seq<string>, marks: seq<nat>)
    requires Sorted(sorted) && IsGrouping(sorted, marks)
    requires multiset(sorted) == multiset(NonStopTokens(rawWords, stops))
    ensures SeparateGroups(Rank(sorted, marks, ToCapitalWords(rawWords)))
    ensures forall grp :: grp in Rank(sorted, marks, ToCapitalWords(rawWords)) ==> WellFormedGroup(grp)
  {
    var origins := RestoreSpellings(sorted, ToCapitalWords(rawWords));
    SortedTokensFacts(rawWords, stops, sorted);
    RestoredFacts(rawWords, stops, sorted);
    GroupingIsContiguous(sorted, marks);
    AggregateWellFormed(origins, marks);
    AggregateSeparate(sorted, origins, marks);
    RankingKeepsGroups(CountTable(origins, marks), Rank(sorted, marks, ToCapitalWords(rawWords)));
  }

  /** A spelling shown in a ranked row comes from some position. */
  lemma RankedSpellingSource(origins: seq<string>, marks: seq<nat>, ranked: seq<WordGroup>,
                             grp: WordGroup, s: string) returns (k: nat)
    requires |origins| == |marks| && Contiguous(marks)
    requires multiset(ranked) == multiset(CountTable(origins, marks))
    requires grp in ranked && s in grp.words
    ensures k < |origins| && origins[k] == s
  {
    AggregateWellFormed(origins, marks);
    assert grp in multiset(ranked);
    assert grp in CountTable(origins, marks);
    assert s in origins;
    k :| 0 <= k < |origins| && origins[k] == s;
  }

  /** Every spelling shown is a surviving token or a capital word of the
      text that lower-cases to one. */
  lemma RankSpellings(rawWords: seq<string>, stops: set<string>, sorted: seq<string>, marks: seq<nat>)
    requires IsGrouping(sorted, marks)
    requires multiset(sorted) == multiset(NonStopTokens(rawWords, stops))
    ensures forall grp, s :: grp in Rank(sorted, marks, ToCapitalWords(rawWords)) && s in grp.words ==>
      ShownSpelling(s, NonStopTokens(rawWords, stops), rawWords)
  {
    var origins := RestoreSpellings(sorted, ToCapitalWords(rawWords));
    var ranked := Rank(sorted, marks, ToCapitalWords(rawWords));
    SortedTokensFacts(rawWords, stops, sorted);
    RestoredFacts(rawWords, stops, sorted);
    GroupingIsContiguous(sorted, marks);
    AggregateWellFormed(origins, marks);
    forall grp, s | grp in ranked && s in grp.words
      ensures ShownSpelling(s, NonStopTokens(rawWords, stops), rawWords)
    {
      var k := RankedSpellingSource(origins, marks, ranked, grp, s);
      assert sorted[k] in sorted;
    }
  }

  /** The spelling at position `k` is listed by some ranked row. */
  lemma RankedRowShows(origins: seq<string>, marks: seq<nat>, ranked: seq<WordGroup>, k: nat)
    returns (i: nat)
    requires |origins| == |marks| && Contiguous(marks) && k < |marks|
    requires multiset(ranked) == multiset(CountTable(origins, marks))
    ensures i < |ranked| && origins[k] in ranked[i].words
  {
    var countDf := CountTable(origins, marks);
    AggregateCovers(origins, marks, k);
    var grp := countDf[marks[k]];
    assert grp in multiset(countDf);
    assert grp in multiset(ranked);
    i :| 0 <= i < |ranked| && ranked[i] == grp;
  }

  /** Every surviving token is shown, under some spelling, in some group. */
  lemma RankCovers(rawWords: seq<string>, stops: set<string>, sorted: seq<string>, marks: seq<nat>)
    requires IsGrouping(sorted, marks)
    requires multiset(sorted) == multiset(NonStopTokens(rawWords, stops))
    ensures forall t :: t in NonStopTokens(rawWords, stops) ==>
      SpelledIn(t, Rank(sorted, marks, ToCapitalWords(rawWords)))
  {
    var origins := RestoreSpellings(sorted, ToCapitalWords(rawWords));
    var ranked := Rank(sorted, marks, ToCapitalWords(rawWords));
    SortedTokensFacts(rawWords, stops, sorted);
    RestoredFacts(rawWords, stops, sorted);
    GroupingIsContiguous(sorted, marks);
    forall t | t in NonStopTokens(rawWords, stops) ensures SpelledIn(t, ranked) {
      var k :| 0 <= k < |sorted| && sorted[k] == t;
      var i := RankedRowShows(origins, marks, ranked, k);
      assert Lower(origins[k]) == t;
    }
  }

  /** `groups` are, up to the order of the rows, the count table of the sorted
      surviving tokens under the similarity grouping of those tokens: which
      tokens share a row is fixed by `IsGrouping`. */
  ghost predicate RankedFrom(groups: seq<WordGroup>, rawWords: seq<string>, stops: set<string>) {
    var sorted := SortWords(NonStopTokens(rawWords, stops));
    var origins := RestoreSpellings(sorted, ToCapitalWords(rawWords));
    exists marks :: IsGrouping(sorted, marks) && Contiguous(marks) &&
      multiset(groups) == multiset(CountTable(origins, marks))
  }

  /** Ranking the count table of the grouped, sorted tokens yields rows tied
      to that grouping. */
  lemma RankIsRankedFrom(rawWords: seq<string>, stops: set<string>, marks: seq<nat>)
    requires IsGrouping(SortWords(NonStopTokens(rawWords, stops)), marks)
    ensures RankedFrom(Rank(SortWords(NonStopTokens(rawWords, stops)), marks, ToCapitalWords(rawWords)),
                       rawWords, stops)
  {
    var sorted := SortWords(NonStopTokens(rawWords, stops));
    var origins := RestoreSpellings(sorted, ToCapitalWords(rawWords));
    GroupingIsContiguous(sorted, marks);
    assert multiset(Rank(sorted, marks, ToCapitalWords(rawWords))) == multiset(CountTable(origins, marks));
  }

  /** The rows are determined by the text and the stop words: two answers tied
      to the grouping differ at most in the order of their rows. */
  lemma RankedFromIsDetermined(g1: seq<WordGroup>, g2: seq<WordGroup>, rawWords: seq<string>, stops: set<string>)
    requires RankedFrom(g1, rawWords, stops) && RankedFrom(g2, rawWords, stops)
    ensures multiset(g1) == multiset(g2)
  {
    var sorted := SortWords(NonStopTokens(rawWords, stops));
    var origins := RestoreSpellings(sorted, ToCapitalWords(rawWords));
    var m1 :| IsGrouping(sorted, m1) && Contiguous(m1) &&
      multiset(g1) == multiset(CountTable(origins, m1));
    var m2 :| IsGrouping(sorted, m2) && Contiguous(m2) &&
      multiset(g2) == multiset(CountTable(origins, m2));
    GroupingIsUnique(sorted, m1, m2);
  }

  /** Two lower-case raw tokens in order, neither a stop word nor a capital
      word, reach the grouper unchanged and keep their spelling. */
  lemma TwoTokensPassThrough(x: string, y: string, stops: set<string>)
    requires IsLowerCase(x) && IsLowerCase(y) && x !in stops && y !in stops
    requires LexLe(x, y) && !IsCapitalWord(x) && !IsCapitalWord(y)
    ensures SortWords(NonStopTokens([x, y], stops)) == [x, y]
    ensures RestoreSpellings([x, y], ToCapitalWords([x, y])) == [x, y]
  {
    var raw := [x, y];
    LowerOfLowerCase(x);
    LowerOfLowerCase(y);
    assert LowerAll(raw) == raw;
    assert raw[1..] == [y];
    assert RemoveStopWords([y], stops) == [y];
    assert NonStopTokens(raw, stops) == raw;
    assert SortWords([y]) == [y];
    assert raw[..1] == [x];
    assert ToCapitalWords([x]) == map[] by {
      assert [x][..0] == [];
    }
    assert ToCapitalWords(raw) == map[];
  }

  /** Two distinct tokens in one group make a single row with count 2. */
  lemma OneRowOfTwo(x: string, y: string)
    requires x != y
    ensures Contiguous([0, 0])
    ensures CountTable([x, y], [0, 0]) == [WordGroup([x, y], 2)]
  {
    var marks: seq<nat> := [0, 0];
    AggregateRow([x, y], marks, 0);
    assert marks[..1] == [0] && [x, y][..1] == [x];
    assert Members([x, y], marks, 0) == [x, y];
    assert [x, y][..1] == [x];
    assert Distinct([x, y]) == [x, y];
  }

  /** Two neighbours that match are both in group 0. */
  lemma TwoSimilarMarks(x: string, y: string, marks: seq<nat>)
    requires IsGrouping([x, y], marks) && Similar(x, y)
    ensures marks == [0, 0]
  {
    assert marks[1] == marks[0] + 0;
  }

  /** A list of rows with the multiset of a single row is that row. */
  lemma SingleRow(groups: seq<WordGroup>, row: WordGroup)
    requires multiset(groups) == multiset([row])
    ensures groups == [row]
  {
    assert |groups| == |multiset(groups)| == 1;
    assert groups[0] in multiset(groups);
  }

  /** Two distinct raw tokens, already lower case, in order, not capital words
      and not stop words, that the similarity test merges: any answer tied to
      the grouping is the single row listing both, with count 2. */
  lemma TwoSimilarTokensShareARow(x: string, y: string, stops: set<string>, groups: seq<WordGroup>)
    requires x != y && IsLowerCase(x) && IsLowerCase(y) && x !in stops && y !in stops
    requires LexLe(x, y) && Similar(x, y) && !IsCapitalWord(x) && !IsCapitalWord(y)
    requires RankedFrom(groups, [x, y], stops)
    ensures groups == [WordGroup([x, y], 2)]
  {
    TwoTokensPassThrough(x, y, stops);
    OneRowOfTwo(x, y);
    var marks :| IsGrouping([x, y], marks) && Contiguous(marks) &&
      multiset(groups) == multiset(CountTable([x, y], marks));
    TwoSimilarMarks(x, y, marks);
    SingleRow(groups, WordGroup([x, y], 2));
  }

  /** `science` and `scientist` (server/app.py:62-82) share one row: an answer
      listing them in separate rows is not tied to the grouping. */
  lemma ScienceAndScientistShareARow(raw: seq<string>, stops: set<string>, groups: seq<WordGroup>)
    requires raw == ["science", "scientist"] && stops == {""}
    requires RankedFrom(groups, raw, stops)
    ensures groups == [WordGroup(raw, 2)]
  {
    var x, y := raw[0], raw[1];
    ScienceFacts(x, y, stops);
    assert raw == [x, y];
    TwoSimilarTokensShareARow(x, y, stops, groups);
  }

  /** The hypotheses of `TwoSimilarTokensShareARow` for `science` and `scientist`. */
  lemma ScienceFacts(x: string, y: string, stops: set<string>)
    requires x == "science" && y == "scientist" && stops == {""}
    ensures x != y && IsLowerCase(x) && IsLowerCase(y) && x !in stops && y !in stops
    ensures LexLe(x, y) && Similar(x, y) && !IsCapitalWord(x) && !IsCapitalWord(y)
  {
    ScienceWordFacts();
    ScienceIsNotCapital();
    SimilarExamples();
  }

  lemma ScienceWordFacts()
    ensures "science" != "scientist"
    ensures IsLowerCase("science") && IsLowerCase("scientist")
    ensures LexLe("science", "scientist")
  {
  }

  lemma ScienceIsNotCapital()
    ensures !IsCapitalWord("science") && !IsCapitalWord("scientist")
  {
    CapitalWordOnToken("science");
    CapitalWordOnToken("scientist");
  }

  /** The body of `wordCalculator` after tokenizing (server/app.py:128-175),
      for raw tokens `rawWords` and stop words `stops`. An empty stop-filter
      result raises IndexError; as the empty string is a stop word, no
      comparison divides by zero. */
  method RankGroups(rawWords: seq<string>, stops: set<string>) returns (r: Result<seq<WordGroup>>)
    requires "" in stops
    ensures r.Err? <==> NonStopTokens(rawWords, stops) == []
    ensures r.Err? ==> r.error == IndexError
    ensures r.Ok? ==> CountsNonIncreasing(r.value)
    ensures r.Ok? ==> SumCounts(r.value) == |NonStopTokens(rawWords, stops)|
    ensures r.Ok? ==> SeparateGroups(r.value)
    ensures r.Ok? ==> forall grp :: grp in r.value ==> WellFormedGroup(grp)
    ensures r.Ok? ==> forall grp, s :: grp in r.value && s in grp.words ==>
      ShownSpelling(s, NonStopTokens(rawWords, stops), rawWords)
    ensures r.Ok? ==> forall t :: t in NonStopTokens(rawWords, stops) ==> SpelledIn(t, r.value)
    ensures r.Ok? ==> RankedFrom(r.value, rawWords, stops)
  {
    var capitalWords := ToCapitalWords(rawWords);
    var lowerWords := LowerAll(rawWords);
    var nonStopWords := RemoveStopWords(lowerWords, stops);
    var alphabetSortedWords := SortWords(nonStopWords);
    SortedTokensFacts(rawWords, stops, alphabetSortedWords);
    var groups := GroupSimilarWord(alphabetSortedWords);
    if groups.Err? {
      return Err(groups.error);
    }
    RankCounts(rawWords, stops, alphabetSortedWords, groups.value);
    RankSeparate(rawWords, stops, alphabetSortedWords, groups.value);
    RankSpellings(rawWords, stops, alphabetSortedWords, groups.value);
    RankCovers(rawWords, stops, alphabetSortedWords, groups.value);
    RankIsRankedFrom(rawWords, stops, groups.value);
    return Ok(Rank(alphabetSortedWords, groups.value, capitalWords));
  }

  /** `wordCalculator(text)` (server/app.py:119-175): the tokens of the text,
      filtered with `STOP_WORDS`, ranked into groups. */
  method WordCalculator(text: string) returns (r: Result<seq<WordGroup>>)
    ensures r.Err? <==> NonStopTokens(Tokenize(text), StopWords) == []
    ensures r.Err? ==> r.error == IndexError
    ensures r.Ok? ==> CountsNonIncreasing(r.value)
    ensures r.Ok? ==> SumCounts(r.value) == |NonStopTokens(Tokenize(text), StopWords)|
    ensures r.Ok? ==> SeparateGroups(r.value)
    ensures r.Ok? ==> forall grp :: grp in r.value ==> WellFormedGroup(grp)
    ensures r.Ok? ==> forall grp, s :: grp in r.value && s in grp.words ==>
      ShownSpelling(s, NonStopTokens(Tokenize(text), StopWords), Tokenize(text))
    ensures r.Ok? ==> NoStopSpelling(r.value, StopWords)
    ensures r.Ok? ==> forall t :: t in NonStopTokens(Tokenize(text), StopWords) ==> SpelledIn(t, r.value)
    ensures r.Ok? ==> RankedFrom(r.value, Tokenize(text), StopWords)
  {
    var rawWords := Tokenize(text);
    assert "" in StopWords;
    r := RankGroups(rawWords, StopWords);
    if r.Ok? {
      ShownSpellingsAvoidStops(r.value, rawWords, StopWords);
    }
  }
}
