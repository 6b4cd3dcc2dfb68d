/** The similarity predicate `isMaching` (server/app.py:62-82). The float
    thresholds are compared exactly: `j / m > 0.45` is `20 * j > 9 * m`. */
module Matching {
  import opened Outcomes

  /** `MATCHING_THRESHOLD` and `MIN_REPEAT_RATIO`, both 0.45 = 9 / 20. */
  const RatioNum: nat := 9
  const RatioDen: nat := 20
  /** `MIN_REPEAT_TIME`. */
  const MinRepeatTime: nat := 3

  function Min(a: nat, b: nat): nat { if a <= b then a else b }
  function Max(a: nat, b: nat): nat { if a <= b then b else a }

  /** The final `j` of the scanning loop (server/app.py:74-80): the length of
      the longest common prefix. */
  function CommonPrefixLength(a: string, b: string): (j: nat)
    ensures j <= |a| && j <= |b|
    ensures a[..j] == b[..j]
    ensures j < |a| && j < |b| ==> a[j] != b[j]
    decreases |a|
  {
    if |a| == 0 || |b| == 0 || a[0] != b[0] then 0
    else
      var j := 1 + CommonPrefixLength(a[1..], b[1..]);
      assert a[..j] == [a[0]] + a[1..][..j - 1];
      assert b[..j] == [b[0]] + b[1..][..j - 1];
      j
  }

  /** `isMaching(word1, word2)` (server/app.py:67-82). Unequal words one of
      which is empty divide by `min(len1, len2) == 0`. */
  function IsMatching(a: string, b: string): (r: Result<bool>)
    ensures r.Err? <==> a != b && (|a| == 0 || |b| == 0)
    ensures r.Err? ==> r.error == ZeroDivisionError
    ensures a == b ==> r == Ok(true)
  {
    if a == b then Ok(true)
    else
      var m := Min(|a|, |b|);
      if m == 0 then Err(ZeroDivisionError)
      else
        var j := CommonPrefixLength(a, b);
        Ok(RatioDen * j > RatioNum * m &&
           RatioDen * j > RatioNum * Max(|a|, |b|) && j > MinRepeatTime)
  }

  /** `isMaching` holds. */
  predicate Similar(a: string, b: string) {
    IsMatching(a, b) == Ok(true)
  }

  /** Any common prefix is no longer than the one the scan finds. */
  lemma {:induction false} CommonPrefixIsLongest(a: string, b: string, n: nat)
    requires n <= |a| && n <= |b| && a[..n] == b[..n]
    ensures n <= CommonPrefixLength(a, b)
  {
    if n > 0 {
      assert a[0] == a[..n][0] == b[..n][0] == b[0];
      assert a[1..][..n - 1] == a[..n][1..] == b[..n][1..] == b[1..][..n - 1];
      CommonPrefixIsLongest(a[1..], b[1..], n - 1);
    }
  }

  lemma {:induction false} CommonPrefixSymmetric(a: string, b: string)
    ensures CommonPrefixLength(a, b) == CommonPrefixLength(b, a)
  {
    CommonPrefixIsLongest(a, b, CommonPrefixLength(b, a));
    CommonPrefixIsLongest(b, a, CommonPrefixLength(a, b));
  }

  /** Every word matches itself: equal strings are checked first. */
  lemma MatchingReflexive(a: string)
    ensures IsMatching(a, a) == Ok(true)
  {
  }

  /** The argument order does not matter, errors included. */
  lemma MatchingSymmetric(a: string, b: string)
    ensures IsMatching(a, b) == IsMatching(b, a)
  {
    CommonPrefixSymmetric(a, b);
  }

  /** Two distinct words are similar exactly when they share a prefix longer
      than 3 characters and longer than 0.45 times the longer word; the
      `j / min > 0.45` conjunct adds nothing. */
  lemma {:induction false} SimilarIffLongSharedPrefix(a: string, b: string)
    requires a != b
    ensures Similar(a, b) <==>
      exists n: nat :: n <= |a| && n <= |b| && a[..n] == b[..n] &&
        n > MinRepeatTime && RatioDen * n > RatioNum * Max(|a|, |b|)
  {
    if exists n: nat :: n <= |a| && n <= |b| && a[..n] == b[..n] &&
        n > MinRepeatTime && RatioDen * n > RatioNum * Max(|a|, |b|) {
      var n: nat :| n <= |a| && n <= |b| && a[..n] == b[..n] &&
        n > MinRepeatTime && RatioDen * n > RatioNum * Max(|a|, |b|);
      CommonPrefixIsLongest(a, b, n);
    }
    if Similar(a, b) {
      var j := CommonPrefixLength(a, b);
      assert j <= |a| && j <= |b| && a[..j] == b[..j];
    }
  }

  /** Words of the source's own example text that the thresholds merge. */
  lemma {:induction false} SimilarExamples()
    ensures IsMatching("science", "scientist") == Ok(true)
    ensures IsMatching("love", "loves") == Ok(true)
  {
    assert CommonPrefixLength("science", "scientist") == 5 by {
      CommonPrefixIsLongest("science", "scientist", 5);
      assert "science"[5] != "scientist"[5];
    }
    assert CommonPrefixLength("love", "loves") == 4 by {
      CommonPrefixIsLongest("love", "loves", 4);
    }
  }

  /** Pairs the thresholds keep apart: no shared prefix, and a shared prefix
      of only `MIN_REPEAT_TIME` characters. */
  lemma {:induction false} DissimilarExamples()
    ensures IsMatching("analysis", "data") == Ok(false)
    ensures IsMatching("cat", "cats") == Ok(false)
  {
    assert CommonPrefixLength("analysis", "data") == 0 by {
      assert "analysis"[0] != "data"[0];
    }
    assert CommonPrefixLength("cat", "cats") <= 3;
  }
}
