/** The tokenizer `splitSpecialChar` (server/app.py:21-34): Python's
    `str.split(sep)` applied to every fragment, one delimiter after another. */
module Tokenizer {
  import opened Outcomes

  /** The delimiters of `IGNORE_CHARS`, in the order the source applies them
      (server/app.py:11-12). The last one is the UTF-8 bytes of a right single
      quotation mark followed by `s`, read back as Windows-1252 text. */
  const IgnoreChars: seq<string> :=
    [" ", "e.g", ".", "?", "!", "...", "\n", "'s", "'",
     ")", ",", ":", "(", "&", "`", "*", "/", "-", ";", "\U{e2}\U{20ac}\U{2122}s"]

  /** Every delimiter is non-empty: `str.split('')` raises ValueError. */
  predicate ValidDelimiters(delims: seq<string>) {
    forall k :: 0 <= k < |delims| ==> |delims[k]| > 0
  }

  /** `sep` occurs in `s` starting at index `i`. */
  predicate OccursAt(s: string, sep: string, i: nat) {
    i + |sep| <= |s| && s[i..i + |sep|] == sep
  }

  /** Python's `sep in s`. */
  predicate Contains(s: string, sep: string) {
    exists i: nat :: i <= |s| && OccursAt(s, sep, i)
  }

  lemma OccursAtShift(s: string, sep: string, k: nat)
    requires |s| > 0
    ensures OccursAt(s[1..], sep, k) <==> OccursAt(s, sep, k + 1)
  {
    if k + 1 + |sep| <= |s| {
      assert s[1..][k..k + |sep|] == s[k + 1..k + 1 + |sep|];
    }
  }

  /** The leftmost occurrence of `sep` in `s`, as `str.find` reports it. */
  function IndexOf(s: string, sep: string): (r: Option<nat>)
    requires |sep| > 0
    ensures r.Some? ==> OccursAt(s, sep, r.value)
    ensures r.Some? ==> forall k: nat :: k < r.value ==> !OccursAt(s, sep, k)
    ensures r.None? <==> !Contains(s, sep)
    decreases |s|
  {
    if |s| < |sep| then None
    else if s[..|sep|] == sep then Some(0)
    else
      var rest := IndexOf(s[1..], sep);
      forall k: nat ensures OccursAt(s[1..], sep, k) <==> OccursAt(s, sep, k + 1) {
        OccursAtShift(s, sep, k);
      }
      assert !OccursAt(s, sep, 0);
      match rest
      case None =>
        assert forall k: nat :: !OccursAt(s, sep, k) by {
          forall k: nat ensures !OccursAt(s, sep, k) {
            if k > 0 { assert !OccursAt(s[1..], sep, k - 1); }
          }
        }
        None
      case Some(k) =>
        assert forall m: nat :: m < k + 1 ==> !OccursAt(s, sep, m) by {
          forall m: nat | m < k + 1 ensures !OccursAt(s, sep, m) {
            if m > 0 { assert !OccursAt(s[1..], sep, m - 1); }
          }
        }
        Some(k + 1)
  }

  /** Python's `s.split(sep)` for a non-empty `sep`: cut at every leftmost,
      non-overlapping occurrence, keeping empty pieces. */
  function Split(s: string, sep: string): (r: seq<string>)
    requires |sep| > 0
    ensures |r| > 0
    decreases |s|
  {
    match IndexOf(s, sep)
    case None => [s]
    case Some(i) => [s[..i]] + Split(s[i + |sep|..], sep)
  }

  /** Python's `sep.join(parts)`. */
  function Join(parts: seq<string>, sep: string): string
    requires |parts| > 0
  {
    if |parts| == 1 then parts[0] else parts[0] + sep + Join(parts[1..], sep)
  }

  /** Python's `s.count(sep)`: non-overlapping occurrences, scanning from the left. */
  function Count(s: string, sep: string): nat
    requires |sep| > 0
    decreases |s|
  {
    if |s| < |sep| then 0
    else if s[..|sep|] == sep then 1 + Count(s[|sep|..], sep)
    else Count(s[1..], sep)
  }

  /** One splitting round: every current fragment split on `sep`, the pieces
      concatenated in order (the `np.append` loop, server/app.py:28-29). */
  function SplitAll(words: seq<string>, sep: string): seq<string>
    requires |sep| > 0
  {
    if |words| == 0 then [] else Split(words[0], sep) + SplitAll(words[1..], sep)
  }

  /** `splitSpecialChar(words, chars)` (server/app.py:21-34). */
  function SplitSpecialChar(words: seq<string>, delims: seq<string>): (r: seq<string>)
    requires ValidDelimiters(delims)
    ensures |delims| == 0 ==> r == words
    ensures forall f :: f in r ==> exists w :: w in words && Contains(w, f)
    ensures forall f, k :: f in r && 0 <= k < |delims| ==> !Contains(f, delims[k])
    decreases |delims|
  {
    if |delims| == 0 then
      assert forall f :: f in words ==> Contains(f, f) by {
        forall f | f in words ensures Contains(f, f) { assert OccursAt(f, f, 0); }
      }
      words
    else
      var next := SplitAll(words, delims[0]);
      var r := SplitSpecialChar(next, delims[1..]);
      forall f | f in r ensures !Contains(f, delims[0]) && exists w :: w in words && Contains(w, f) {
        var g :| g in next && Contains(g, f);
        SplitAllAvoids(words, delims[0], g);
        FactorAvoids(g, f, delims[0]);
        SplitAllFactors(words, delims[0], g);
        var w :| w in words && Contains(w, g);
        FactorTransitive(w, g, f);
      }
      assert forall f, k :: f in r && 1 <= k < |delims| ==> !Contains(f, delims[k]) by {
        forall f, k | f in r && 1 <= k < |delims| ensures !Contains(f, delims[k]) {
          assert delims[1..][k - 1] == delims[k];
        }
      }
      r
  }

  /** The tokenizer as `wordCalculator` calls it (server/app.py:127). */
  function Tokenize(text: string): seq<string> {
    SplitSpecialChar([text], IgnoreChars)
  }

  // ---------------------------------------------------------------------------
  // Facts about one split

  lemma {:induction false} SplitJoin(s: string, sep: string)
    requires |sep| > 0
    ensures Join(Split(s, sep), sep) == s
    decreases |s|
  {
    match IndexOf(s, sep)
    case None =>
    case Some(i) =>
      var rest := s[i + |sep|..];
      var tail := Split(rest, sep);
      SplitJoin(rest, sep);
      assert Split(s, sep) == [s[..i]] + tail;
      assert ([s[..i]] + tail)[1..] == tail;
      assert Join(Split(s, sep), sep) == s[..i] + sep + rest;
      assert s == s[..i] + s[i..i + |sep|] + rest;
  }

  lemma PrefixAvoids(s: string, sep: string, i: nat)
    requires |sep| > 0 && i <= |s|
    requires forall k: nat :: k < i ==> !OccursAt(s, sep, k)
    ensures !Contains(s[..i], sep)
  {
    forall k: nat | k <= i && OccursAt(s[..i], sep, k) ensures false {
      assert s[..i][k..k + |sep|] == s[k..k + |sep|];
      assert OccursAt(s, sep, k);
    }
  }

  lemma {:induction false} SplitPiecesAvoid(s: string, sep: string)
    requires |sep| > 0
    ensures forall f :: f in Split(s, sep) ==> !Contains(f, sep)
    decreases |s|
  {
    match IndexOf(s, sep)
    case None =>
    case Some(i) =>
      SplitPiecesAvoid(s[i + |sep|..], sep);
      PrefixAvoids(s, sep, i);
  }

  lemma {:induction false} SplitPiecesAreFactors(s: string, sep: string)
    requires |sep| > 0
    ensures forall f :: f in Split(s, sep) ==> Contains(s, f)
    decreases |s|
  {
    match IndexOf(s, sep)
    case None =>
      assert OccursAt(s, s, 0);
    case Some(i) =>
      var t := s[i + |sep|..];
      SplitPiecesAreFactors(t, sep);
      assert OccursAt(s, s[..i], 0);
      forall f | f in Split(t, sep) ensures Contains(s, f) {
        var k: nat :| k <= |t| && OccursAt(t, f, k);
        assert s[i + |sep| + k..i + |sep| + k + |f|] == t[k..k + |f|];
        assert OccursAt(s, f, i + |sep| + k);
      }
  }

  lemma {:induction false} CountSkips(s: string, sep: string, i: nat)
    requires |sep| > 0 && i <= |s|
    requires forall k: nat :: k < i ==> !OccursAt(s, sep, k)
    ensures Count(s, sep) == Count(s[i..], sep)
    decreases i
  {
    if i > 0 {
      assert !OccursAt(s, sep, 0);
      forall k: nat | k < i - 1 ensures !OccursAt(s[1..], sep, k) {
        OccursAtShift(s, sep, k);
      }
      CountSkips(s[1..], sep, i - 1);
      assert s[1..][i - 1..] == s[i..];
    }
  }

  lemma {:induction false} SplitCount(s: string, sep: string)
    requires |sep| > 0
    ensures |Split(s, sep)| == Count(s, sep) + 1
    decreases |s|
  {
    match IndexOf(s, sep)
    case None =>
      if |s| >= |sep| {
        CountSkips(s, sep, |s| - |sep| + 1);
        assert |s[|s| - |sep| + 1..]| < |sep|;
      }
    case Some(i) =>
      SplitCount(s[i + |sep|..], sep);
      CountSkips(s, sep, i);
      assert s[i..][..|sep|] == sep;
      assert s[i..][|sep|..] == s[i + |sep|..];
  }

  // ---------------------------------------------------------------------------
  // Facts about rounds of splitting

  lemma SliceOfSlice(s: string, a: nat, b: nat, c: nat, d: nat)
    requires a <= b <= |s| && c <= d <= b - a
    ensures s[a..b][c..d] == s[a + c..a + d]
  {
    assert forall t :: 0 <= t < d - c ==> s[a..b][c..d][t] == s[a + c + t];
  }

  /** A piece of a string free of `sep` is free of `sep`. */
  lemma FactorAvoids(s: string, f: string, sep: string)
    requires Contains(s, f) && !Contains(s, sep)
    ensures !Contains(f, sep)
  {
    var k: nat :| k <= |s| && OccursAt(s, f, k);
    forall m: nat | m <= |f| && OccursAt(f, sep, m) ensures false {
      SliceOfSlice(s, k, k + |f|, m, m + |sep|);
      assert OccursAt(s, sep, k + m);
    }
  }

  lemma FactorTransitive(s: string, g: string, f: string)
    requires Contains(s, g) && Contains(g, f)
    ensures Contains(s, f)
  {
    var m: nat :| m <= |s| && OccursAt(s, g, m);
    var k: nat :| k <= |g| && OccursAt(g, f, k);
    SliceOfSlice(s, m, m + |g|, k, k + |f|);
    assert OccursAt(s, f, m + k);
  }

  lemma {:induction false} SplitAllAvoids(words: seq<string>, sep: string, f: string)
    requires |sep| > 0 && f in SplitAll(words, sep)
    ensures !Contains(f, sep)
    decreases |words|
  {
    if f in Split(words[0], sep) {
      SplitPiecesAvoid(words[0], sep);
    } else {
      SplitAllAvoids(words[1..], sep, f);
    }
  }

  lemma {:induction false} SplitAllFactors(words: seq<string>, sep: string, f: string)
    requires |sep| > 0 && f in SplitAll(words, sep)
    ensures exists w :: w in words && Contains(w, f)
    decreases |words|
  {
    if f in Split(words[0], sep) {
      SplitPiecesAreFactors(words[0], sep);
      assert words[0] in words;
    } else {
      SplitAllFactors(words[1..], sep, f);
      var w :| w in words[1..] && Contains(w, f);
      assert w in words;
    }
  }

  /** A split on `sep` leaves a fragment that does not contain `sep` unchanged. */
  lemma SplitAbsent(s: string, sep: string)
    requires |sep| > 0 && !Contains(s, sep)
    ensures Split(s, sep) == [s]
  {
  }

  /** Once every fragment is free of `d1`, a later round on any `d2` that
      contains `d1` changes nothing: in `IgnoreChars`, `"..."` comes after `"."`
      and so never splits anything. */
  lemma {:induction false} LaterDelimiterIsIdle(words: seq<string>, d1: string, d2: string)
    requires |d1| > 0 && |d2| > 0 && Contains(d2, d1)
    requires forall w :: w in words ==> !Contains(w, d1)
    ensures SplitAll(words, d2) == words
    decreases |words|
  {
    if |words| > 0 {
      if Contains(words[0], d2) {
        FactorTransitive(words[0], d2, d1);
      }
      LaterDelimiterIsIdle(words[1..], d1, d2);
    }
  }

  /** The `"..."` round of the source's tokenizer never splits anything. */
  lemma EllipsisNeverSplits(text: string)
    ensures SplitAll(SplitSpecialChar([text], IgnoreChars[..5]), "...") == SplitSpecialChar([text], IgnoreChars[..5])
  {
    assert IgnoreChars[..5][2] == ".";
    assert OccursAt("...", ".", 0);
    LaterDelimiterIsIdle(SplitSpecialChar([text], IgnoreChars[..5]), ".", "...");
  }

  /** Delimiter order matters: `"e.g"` applied before `"."` swallows the text
      whole, applied after it leaves two letters. */
  lemma DelimiterOrderMatters()
    ensures SplitSpecialChar(["e.g"], ["e.g", "."]) == ["", ""]
    ensures SplitSpecialChar(["e.g"], [".", "e.g"]) == ["e", "g"]
  {
    assert IndexOf("e.g", "e.g") == Some(0);
    assert IndexOf("", "e.g") == None;
    assert Split("e.g", "e.g") == ["", ""];
    assert IndexOf("", ".") == None;
    assert Split("", ".") == [""];
    assert SplitAll([""], ".") == [""];
    assert SplitAll(["", ""], ".") == ["", ""];
    assert SplitAll(["e.g"], "e.g") == ["", ""];
    assert ["e.g", "."][1..] == ["."];
    assert SplitSpecialChar(["e.g"], ["e.g", "."]) == SplitSpecialChar(["", ""], ["."]);
    assert SplitSpecialChar(["", ""], ["."]) == SplitSpecialChar(["", ""], []);

    assert "e.g"[0] == 'e' && "e.g"[..1] == "e";
    assert "e.g"[1..] == ".g" && ".g"[..1] == ".";
    assert IndexOf(".g", ".") == Some(0);
    assert IndexOf("e.g", ".") == Some(1);
    assert "e.g"[2..] == "g" && "g"[..1] == "g" && "g"[1..] == "";
    assert IndexOf("g", ".") == None;
    assert Split("e.g", ".") == ["e"] + Split("g", ".");
    assert Split("e.g", ".") == ["e", "g"];
    assert SplitAll(["e.g"], ".") == ["e", "g"];
    assert IndexOf("e", "e.g") == None;
    assert IndexOf("g", "e.g") == None;
    assert SplitAll(["g"], "e.g") == ["g"];
    assert SplitAll(["e", "g"], "e.g") == ["e", "g"];
    assert [".", "e.g"][1..] == ["e.g"];
    assert SplitSpecialChar(["e.g"], [".", "e.g"]) == SplitSpecialChar(["e", "g"], ["e.g"]);
    assert SplitSpecialChar(["e", "g"], ["e.g"]) == SplitSpecialChar(["e", "g"], []);
  }
}
