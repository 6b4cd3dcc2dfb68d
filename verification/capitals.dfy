/** The capitalisation indexer (server/app.py:16-17, 37-59): which raw tokens
    are proper nouns or acronyms, and the map from their lower-case form back
    to the spelling shown to the user. */
module Capitals {
  import opened Strings

  /** `NOT_SPECIAL_WORDS`: single capital letters that are ordinary words. */
  const NotSpecialWords: set<string> := {"A", "I", "U"}

  /** `isCapitalLetter` (server/app.py:37-38), with `isupper` on ASCII. */
  predicate IsCapitalLetter(w: string) {
    |w| == 1 && IsUpperAscii(w[0]) && w !in NotSpecialWords
  }

  predicate NoNewline(s: string) {
    forall i :: 0 <= i < |s| ==> s[i] != '\n'
  }

  predicate AllUpper(s: string) {
    forall i :: 0 <= i < |s| ==> IsUpperAscii(s[i])
  }

  /** The whole of `v` matches `[A-Z].*[A-Z]+`: an upper-case letter, a run
      of characters other than a newline (what `.` accepts), and a non-empty
      run of upper-case letters. */
  predicate WholeMatch(v: string) {
    |v| >= 2 && IsUpperAscii(v[0]) &&
    exists k :: 1 <= k < |v| && NoNewline(v[1..k]) && AllUpper(v[k..])
  }

  /** `CAPITAL_WORD_PATTERN.search(w)` for `^[A-Z].*[A-Z]+$`: `^` anchors at
      the start and `$` matches at the end or just before a final newline. */
  predicate CapitalPattern(w: string) {
    WholeMatch(w) || (|w| > 0 && w[|w| - 1] == '\n' && WholeMatch(w[..|w| - 1]))
  }

  /** `isCapitalWord` (server/app.py:41-42). */
  predicate IsCapitalWord(w: string) {
    IsCapitalLetter(w) || CapitalPattern(w)
  }

  /** A capital word starts with an upper-case letter, so it is never lower case. */
  lemma CapitalWordNotLowerCase(w: string)
    requires IsCapitalWord(w)
    ensures !IsLowerCase(w)
  {
    if CapitalPattern(w) && !WholeMatch(w) {
      assert w[..|w| - 1][0] == w[0];
    }
  }

  /** The pattern, without backtracking: first and last letters upper case and
      no newline in between. */
  lemma WholeMatchClosedForm(v: string)
    ensures WholeMatch(v) <==>
      |v| >= 2 && IsUpperAscii(v[0]) && IsUpperAscii(v[|v| - 1]) && NoNewline(v[1..|v| - 1])
  {
    if |v| >= 2 && IsUpperAscii(v[0]) && IsUpperAscii(v[|v| - 1]) && NoNewline(v[1..|v| - 1]) {
      assert AllUpper(v[|v| - 1..]);
    }
    if WholeMatch(v) {
      var k :| 1 <= k < |v| && NoNewline(v[1..k]) && AllUpper(v[k..]);
      assert v[|v| - 1] == v[k..][|v| - 1 - k];
      var mid := v[1..|v| - 1];
      forall i | 0 <= i < |mid| ensures mid[i] != '\n' {
        if i + 1 < k {
          assert mid[i] == v[1..k][i];
        } else {
          assert mid[i] == v[k..][i + 1 - k];
        }
      }
    }
  }

  /** On a token without newlines (every token the tokenizer produces, since
      `"\n"` is a delimiter), a capital word is a capital letter other than
      A, I and U, or a word of two or more characters whose first and last
      characters are both in A-Z. */
  lemma CapitalWordOnToken(w: string)
    requires NoNewline(w)
    ensures IsCapitalWord(w) <==>
      (|w| == 1 && IsUpperAscii(w[0]) && w != "A" && w != "I" && w != "U") ||
      (|w| >= 2 && IsUpperAscii(w[0]) && IsUpperAscii(w[|w| - 1]))
  {
    WholeMatchClosedForm(w);
    if |w| >= 2 {
      var mid := w[1..|w| - 1];
      assert forall i :: 0 <= i < |mid| ==> mid[i] == w[i + 1];
    }
  }

  /** `toCapitalWords` (server/app.py:45-52): every capital word keyed by its
      lower-case form, a later token overwriting an earlier one. */
  function ToCapitalWords(words: seq<string>): map<string, string>
    decreases |words|
  {
    if |words| == 0 then map[]
    else
      var w := words[|words| - 1];
      var m := ToCapitalWords(words[..|words| - 1]);
      if IsCapitalWord(w) then m[Lower(w) := w] else m
  }

  /** The keys are the lower-case forms of the capital words of the text,
      and each maps to a capital word with that lower-case form. */
  lemma {:induction false} CapitalMapMeaning(words: seq<string>)
    ensures forall k :: k in ToCapitalWords(words) ==>
      Lower(ToCapitalWords(words)[k]) == k && IsCapitalWord(ToCapitalWords(words)[k])
    ensures forall k :: k in ToCapitalWords(words) <==>
      exists i :: 0 <= i < |words| && IsCapitalWord(words[i]) && Lower(words[i]) == k
    decreases |words|
  {
    if |words| > 0 {
      var front := words[..|words| - 1];
      CapitalMapMeaning(front);
      assert forall i :: 0 <= i < |front| ==> front[i] == words[i];
    }
  }

  /** Some raw token is a capital word whose lower-case form is `t`. */
  predicate HasCapitalSpelling(t: string, words: seq<string>) {
    exists i :: 0 <= i < |words| && IsCapitalWord(words[i]) && Lower(words[i]) == t
  }

  /** `toOriginWord` (server/app.py:55-59). */
  function ToOriginWord(word: string, dict: map<string, string>): string {
    if word in dict then dict[word] else word
  }

  /** When several capital spellings share a lower-case form, the map keeps
      the LAST one in token order. */
  lemma {:induction false} LastSpellingWins(words: seq<string>, k: string)
    requires k in ToCapitalWords(words)
    ensures exists i :: (0 <= i < |words| && words[i] == ToCapitalWords(words)[k] &&
                         forall j :: i < j < |words| ==> !(IsCapitalWord(words[j]) && Lower(words[j]) == k))
    decreases |words|
  {
    var front := words[..|words| - 1];
    var w := words[|words| - 1];
    assert words == front + [w];
    if IsCapitalWord(w) && Lower(w) == k {
      assert words[|words| - 1] == ToCapitalWords(words)[k];
    } else {
      assert ToCapitalWords(words)[k] == ToCapitalWords(front)[k];
      LastSpellingWins(front, k);
      var i :| 0 <= i < |front| && front[i] == ToCapitalWords(front)[k] &&
        forall j :: i < j < |front| ==> !(IsCapitalWord(front[j]) && Lower(front[j]) == k);
      assert words[i] == front[i];
      assert forall j :: i < j < |words| - 1 ==> words[j] == front[j];
    }
  }

  /** Restoring the spelling of a lower-case token never changes its
      lower-case form: it yields the token itself, or a capital word of the
      text that lower-cases to it. */
  lemma OriginWordRestoresSpelling(word: string, words: seq<string>)
    requires IsLowerCase(word)
    ensures Lower(ToOriginWord(word, ToCapitalWords(words))) == word
    ensures ToOriginWord(word, ToCapitalWords(words)) == word ||
      exists i :: 0 <= i < |words| && IsCapitalWord(words[i]) && Lower(words[i]) == word &&
        ToOriginWord(word, ToCapitalWords(words)) == words[i]
    ensures HasCapitalSpelling(word, words) <==> ToOriginWord(word, ToCapitalWords(words)) != word
    ensures HasCapitalSpelling(word, words) <==> IsCapitalWord(ToOriginWord(word, ToCapitalWords(words)))
  {
    var m := ToCapitalWords(words);
    CapitalMapMeaning(words);
    if word in m {
      LastSpellingWins(words, word);
      CapitalWordNotLowerCase(m[word]);
    } else {
      if IsCapitalWord(word) {
        CapitalWordNotLowerCase(word);
      }
      LowerOfLowerCase(word);
    }
  }
}
