/** Tokenisation of the similarity engine: stop words, suffix stripping and
    word extraction (app/api/search/route.ts and its copy in
    app/api/search/similar/route.ts, which is identical apart from comments). */
module Tokenizer {
  import opened Text
  import opened Markup

  /** The fixed stop-word list; the source lists some words twice, which a set ignores. */
  const StopWords: set<String> := {
    "the", "a", "an", "and", "or", "but", "in", "on", "at", "to", "for", "of", "with",
    "by", "from", "as", "is", "was", "are", "were", "been", "be", "have", "has", "had",
    "do", "does", "did", "will", "would", "could", "should", "may", "might", "must",
    "can", "this", "that", "these", "those", "i", "you", "he", "she", "it", "we", "they",
    "what", "which", "who", "when", "where", "why", "how", "all", "each", "every",
    "other", "another", "some", "any", "no", "not", "only", "just", "more", "most",
    "very", "too", "so", "than", "then", "there", "their", "them",
    "about", "into", "through", "during", "including", "against", "among", "throughout",
    "despite", "towards", "upon", "concerning", "up"
  }

  predicate EndsWith(w: String, suffix: String) {
    |suffix| <= |w| && w[|w| - |suffix|..] == suffix
  }

  /** Suffix stripping: the first matching rule wins. The eleven suffix rules need a
      word longer than 4; the plural rule needs a word longer than 3 that does not end in "ss". */
  function Stem(w: String): String {
    if |w| > 4 && EndsWith(w, "ing") then w[..|w| - 3]
    else if |w| > 4 && EndsWith(w, "ed") then w[..|w| - 2]
    else if |w| > 4 && EndsWith(w, "ly") then w[..|w| - 2]
    else if |w| > 4 && EndsWith(w, "er") then w[..|w| - 2]
    else if |w| > 4 && EndsWith(w, "est") then w[..|w| - 3]
    else if |w| > 4 && EndsWith(w, "tion") then w[..|w| - 4]
    else if |w| > 4 && EndsWith(w, "sion") then w[..|w| - 4]
    else if |w| > 4 && EndsWith(w, "ness") then w[..|w| - 4]
    else if |w| > 4 && EndsWith(w, "ment") then w[..|w| - 4]
    else if |w| > 4 && EndsWith(w, "able") then w[..|w| - 4]
    else if |w| > 4 && EndsWith(w, "ible") then w[..|w| - 4]
    else if |w| > 3 && EndsWith(w, "s") && !EndsWith(w, "ss") then w[..|w| - 1]
    else w
  }

  /** The rule table in priority order; the last entry is the plural rule. */
  const SuffixTable: seq<String> :=
    ["ing", "ed", "ly", "er", "est", "tion", "sion", "ness", "ment", "able", "ible", "s"]

  /** Whether rule `k` of the table applies to `w` on its own (ignoring earlier rules). */
  predicate RuleApplies(w: String, k: nat)
    requires k < |SuffixTable|
  {
    if k < 11 then |w| > 4 && EndsWith(w, SuffixTable[k])
    else |w| > 3 && EndsWith(w, "s") && !EndsWith(w, "ss")
  }

  /** When rule `k` applies and no earlier rule does, Stem removes rule `k`'s suffix. */
  lemma StemIsFirstApplicableRule(w: String, k: nat)
    requires k < |SuffixTable|
    ensures RuleApplies(w, k) && (forall j :: 0 <= j < k ==> !RuleApplies(w, j)) ==>
      Stem(w) == w[..|w| - |SuffixTable[k]|]
  {
    if RuleApplies(w, k) && (forall j :: 0 <= j < k ==> !RuleApplies(w, j)) {
      if k > 0 { assert !RuleApplies(w, 0); }
      if k > 1 { assert !RuleApplies(w, 1); }
      if k > 2 { assert !RuleApplies(w, 2); }
      if k > 3 { assert !RuleApplies(w, 3); }
      if k > 4 { assert !RuleApplies(w, 4); }
      if k > 5 { assert !RuleApplies(w, 5); }
      if k > 6 { assert !RuleApplies(w, 6); }
      if k > 7 { assert !RuleApplies(w, 7); }
      if k > 8 { assert !RuleApplies(w, 8); }
      if k > 9 { assert !RuleApplies(w, 9); }
      if k > 10 { assert !RuleApplies(w, 10); }
    }
  }

  /** When no rule of the table applies, Stem returns the word unchanged. */
  lemma StemWithoutApplicableRule(w: String)
    ensures (forall k :: 0 <= k < |SuffixTable| ==> !RuleApplies(w, k)) ==> Stem(w) == w
  {
    if forall k :: 0 <= k < |SuffixTable| ==> !RuleApplies(w, k) {
      assert !RuleApplies(w, 0) && !RuleApplies(w, 1) && !RuleApplies(w, 2) && !RuleApplies(w, 3);
      assert !RuleApplies(w, 4) && !RuleApplies(w, 5) && !RuleApplies(w, 6) && !RuleApplies(w, 7);
      assert !RuleApplies(w, 8) && !RuleApplies(w, 9) && !RuleApplies(w, 10) && !RuleApplies(w, 11);
    }
  }

  /** Stemming only removes a suffix: the result is a prefix at most 4 characters shorter;
      words of length 3 or less are untouched, and a word of length 4 loses at most its plural 's'. */
  lemma StemIsShortPrefix(w: String)
    ensures |Stem(w)| <= |w| && Stem(w) == w[..|Stem(w)|]
    ensures |w| - |Stem(w)| <= 4
    ensures |w| <= 3 ==> Stem(w) == w
    ensures |w| == 4 ==> (Stem(w) == w || (Stem(w) == w[..3] && w[3] == 's' && w[2] != 's'))
  {
    if |w| == 4 && EndsWith(w, "s") && !EndsWith(w, "ss") {
      assert w[3..] == "s";
      assert w[2..] != "ss";
    }
  }

  /** End of the maximal run of ASCII letters starting at `i`. */
  function LetterRunEnd(s: String, i: nat): (e: nat)
    requires i <= |s|
    ensures i <= e <= |s|
    ensures forall k :: i <= k < e ==> IsAsciiLetter(s[k])
    ensures e == |s| || !IsAsciiLetter(s[e])
    decreases |s| - i
  {
    if i < |s| && IsAsciiLetter(s[i]) then LetterRunEnd(s, i + 1) else i
  }

  /** Where `\b[a-z]+(?:-[a-z]+)*\b` ends when its current letter run ends at `r`:
      greedily take "-letters" groups, then require a word boundary; when the last
      group is followed by a word character, backtrack to the end of the group
      before it (`fallback`, which is followed by '-'), or fail (-1) if there is none. */
  function ChainEnd(s: String, r: nat, fallback: int): (e: int)
    requires r <= |s|
    requires fallback == -1 || fallback < r
    ensures e == -1 || fallback <= e <= |s|
    ensures e == -1 ==> fallback == -1
    decreases |s| - r
  {
    if r + 1 < |s| && s[r] == '-' && IsAsciiLetter(s[r + 1]) then
      ChainEnd(s, LetterRunEnd(s, r + 1), r)
    else if r == |s| || !IsWordChar(s[r]) then r
    else fallback
  }

  /** The matches of the word pattern (flags `gi`) in `s`, scanning from `pos`:
      a match starts at a letter that follows a non-word character (or the start). */
  function Words(s: String, pos: nat): (ws: seq<String>)
    requires pos <= |s|
    ensures forall k :: 0 <= k < |ws| ==> ws[k] != [] && IsAsciiLetter(ws[k][0])
    decreases |s| - pos
  {
    if pos == |s| then []
    else if IsAsciiLetter(s[pos]) && (pos == 0 || !IsWordChar(s[pos - 1])) then
      var e := ChainEnd(s, LetterRunEnd(s, pos), -1);
      if e == -1 then Words(s, pos + 1)
      else
        assert LetterRunEnd(s, pos) > pos;
        [s[pos..e]] + Words(s, e)
    else Words(s, pos + 1)
  }

  /** Letter runs joined by single hyphens: the shape of a word-pattern match. */
  predicate IsHyphenWord(w: String) {
    |w| >= 1 && IsAsciiLetter(w[0]) && IsAsciiLetter(w[|w| - 1]) &&
    (forall k :: 0 <= k < |w| ==> IsAsciiLetter(w[k]) || w[k] == '-') &&
    (forall k :: 0 < k < |w| && w[k] == '-' ==> IsAsciiLetter(w[k - 1]))
  }

  lemma {:induction false} ChainEndIsHyphenWord(s: String, start: nat, r: nat, fallback: int)
    requires start < r <= |s|
    requires IsHyphenWord(s[start..r])
    requires fallback == -1 || (start < fallback < r && IsHyphenWord(s[start..fallback]))
    ensures ChainEnd(s, r, fallback) != -1 ==> IsHyphenWord(s[start..ChainEnd(s, r, fallback)])
    decreases |s| - r
  {
    if r + 1 < |s| && s[r] == '-' && IsAsciiLetter(s[r + 1]) {
      var r2 := LetterRunEnd(s, r + 1);
      var w := s[start..r2];
      assert s[start..r] == w[..r - start];
      forall k | 0 <= k < |w| ensures IsAsciiLetter(w[k]) || w[k] == '-' {
        if k < r - start { assert w[k] == s[start..r][k]; }
      }
      forall k | 0 < k < |w| && w[k] == '-' ensures IsAsciiLetter(w[k - 1]) {
        if k < r - start { assert w[k] == s[start..r][k] && w[k - 1] == s[start..r][k - 1]; }
        else if k == r - start { assert w[k - 1] == s[start..r][k - 1]; }
      }
      assert r2 > r + 1 && w[|w| - 1] == s[r2 - 1];
      ChainEndIsHyphenWord(s, start, r2, r);
    }
  }

  /** Every match of the word pattern is a hyphen-joined run of letters. */
  lemma {:induction false} WordsAreHyphenWords(s: String, pos: nat)
    requires pos <= |s|
    ensures forall k :: 0 <= k < |Words(s, pos)| ==> IsHyphenWord(Words(s, pos)[k])
    decreases |s| - pos
  {
    if pos < |s| {
      if IsAsciiLetter(s[pos]) && (pos == 0 || !IsWordChar(s[pos - 1])) {
        var r := LetterRunEnd(s, pos);
        var e := ChainEnd(s, r, -1);
        if e == -1 {
          WordsAreHyphenWords(s, pos + 1);
        } else {
          assert IsHyphenWord(s[pos..r]);
          ChainEndIsHyphenWord(s, pos, r, -1);
          WordsAreHyphenWords(s, e);
        }
      } else {
        WordsAreHyphenWords(s, pos + 1);
      }
    }
  }

  /** The words kept before stemming: longer than 2 and not stop words. */
  function Keep(ws: seq<String>): (r: seq<String>)
    ensures forall k :: 0 <= k < |r| ==> |r[k]| > 2 && r[k] !in StopWords
    ensures |r| <= |ws|
  {
    if ws == [] then []
    else if |ws[0]| > 2 && ws[0] !in StopWords then [ws[0]] + Keep(ws[1..])
    else Keep(ws[1..])
  }

  /** A word is kept exactly when it occurs in the input, is longer than two letters
      and is not a stop word. */
  lemma {:induction false} KeepMembership(ws: seq<String>, w: String)
    ensures w in Keep(ws) <==> w in ws && |w| > 2 && w !in StopWords
    decreases |ws|
  {
    if ws != [] {
      KeepMembership(ws[1..], w);
      assert w in ws <==> w == ws[0] || w in ws[1..];
    }
  }

  /** The filter keeps order: the words kept from two lists are those kept from the
      first followed by those kept from the second. */
  lemma {:induction false} KeepAppend(a: seq<String>, b: seq<String>)
    ensures Keep(a + b) == Keep(a) + Keep(b)
    decreases |a|
  {
    if a == [] {
      assert a + b == b;
    } else {
      assert (a + b)[1..] == a[1..] + b;
      KeepAppend(a[1..], b);
    }
  }

  function StemAll(ws: seq<String>): (r: seq<String>)
    ensures |r| == |ws| && forall k :: 0 <= k < |ws| ==> r[k] == Stem(ws[k])
  {
    if ws == [] then [] else [Stem(ws[0])] + StemAll(ws[1..])
  }

  function LowerAll(ws: seq<String>): (r: seq<String>)
    ensures |r| == |ws| && forall k :: 0 <= k < |ws| ==> r[k] == ToLower(ws[k])
  {
    if ws == [] then [] else [ToLower(ws[0])] + LowerAll(ws[1..])
  }

  /** `extractWords`: tags become spaces, the text is lowercased, the word pattern is
      matched, each match lowercased again, filtered by length and stop words, then stemmed. */
  function ExtractWords(text: String): seq<String> {
    var plain := ToLower(ReplaceTags(text, " "));
    StemAll(Keep(LowerAll(Words(plain, 0))))
  }

  /** The length and stop-word filters look at the word BEFORE stemming: every token is
      non-empty, yet a five-letter word losing a four-letter suffix leaves one letter. */
  lemma ExtractedTokensAreNonEmpty(text: String)
    ensures forall k :: 0 <= k < |ExtractWords(text)| ==> |ExtractWords(text)[k]| >= 1
  {
    var kept := Keep(LowerAll(Words(ToLower(ReplaceTags(text, " ")), 0)));
    forall k | 0 <= k < |kept| ensures |Stem(kept[k])| >= 1 {
      StemIsShortPrefix(kept[k]);
    }
  }

  /** A five-letter word ending in one of the eleven long suffixes loses exactly that
      suffix, since no two of them end a five-letter word together: a four-letter suffix
      leaves one letter and `ing` or `est` leaves two, below the three letters the filter
      asked of the word before stemming. */
  lemma FiveLetterStem(w: String, k: nat)
    requires |w| == 5 && k < 11 && EndsWith(w, SuffixTable[k])
    ensures Stem(w) == w[..5 - |SuffixTable[k]|]
    ensures |SuffixTable[k]| >= 3 ==> |Stem(w)| <= 2
  {
    var suf := SuffixTable[k];
    assert w[5 - |suf|..] == suf;
    assert w[4] == suf[|suf| - 1] && w[3] == suf[|suf| - 2];
    assert |suf| >= 3 ==> w[2] == suf[|suf| - 3];
    assert |suf| >= 4 ==> w[1] == suf[|suf| - 4];
  }
}
