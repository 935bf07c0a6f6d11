/** The auto-import route's reconciliation: every highlight read from the Notion page is
    compared with the stored highlights and classified as unchanged (skipped), changed
    (an update of a stored row) or new (an insert). An exact match of the normalized
    texts ends the scan of the stored rows; otherwise the stored row with the highest
    similarity of at least 0.8 is updated, the earliest one on ties. */
module Reconcile {
  import opened Text
  import opened Wrappers
  import opened Notion
  import opened PageSplit

  // ---------------------------------------------------------------------------
  // Normalization and similarity
  // ---------------------------------------------------------------------------

  /** `normalize`: trimmed, lower-cased, every whitespace run one space. */
  function Normalize(s: String): String {
    CollapseSpaces(ToLower(Trim(s)))
  }

  /** The normalised text is the input's non-whitespace characters, lower-cased and in
      order, with single spaces between runs and none at either end; it is empty exactly
      when the input is blank. */
  lemma NormalizeMeaning(s: String)
    ensures NonSpaces(Normalize(s)) == ToLower(NonSpaces(s))
    ensures forall i :: 0 <= i < |Normalize(s)| && IsSpace(Normalize(s)[i]) ==> Normalize(s)[i] == ' '
    ensures forall i :: 0 < i < |Normalize(s)| && IsSpace(Normalize(s)[i]) ==> !IsSpace(Normalize(s)[i - 1])
    ensures Normalize(s) == [] || (!IsSpace(Normalize(s)[0]) && !IsSpace(Normalize(s)[|Normalize(s)| - 1]))
    ensures Normalize(s) == [] <==> Trim(s) == []
  {
    var t := Trim(s);
    var l := ToLower(t);
    CollapseSpacesMeaning(l);
    NonSpacesToLower(t);
    NonSpacesTrim(s);
    if t != [] {
      ToLowerAt(t);
      LowerCharKeepsSpace(t[0]);
      LowerCharKeepsSpace(t[|t| - 1]);
      CollapseSpacesEnds(l);
    }
  }

  /** How many words of `w1`, repeats included, occur somewhere in `w2`:
      `words1.filter(w => words2.includes(w)).length`. */
  function CommonCount(w1: seq<String>, w2: seq<String>): (n: nat)
    ensures n <= |w1|
  {
    if w1 == [] then 0 else (if w1[0] in w2 then 1 else 0) + CommonCount(w1[1..], w2)
  }

  /** `calculateSimilarity`: 1 for equal normalized strings, 0 when one of them is empty,
      the length ratio when one contains the other, and otherwise twice the number of
      shared words over the total number of words. Lengths are JavaScript's `.length`,
      counted in UTF-16 code units. */
  function Similarity(str1: String, str2: String): real {
    var s1 := Normalize(str1);
    var s2 := Normalize(str2);
    if s1 == s2 then 1.0
    else if Utf16Length(s1) == 0 || Utf16Length(s2) == 0 then 0.0
    else if Contains(s1, s2) || Contains(s2, s1) then
      var longer := if Utf16Length(s1) > Utf16Length(s2) then s1 else s2;
      var shorter := if Utf16Length(s1) > Utf16Length(s2) then s2 else s1;
      Ratio(Utf16Length(shorter), Utf16Length(longer))
    else
      var words1 := SplitOnSpace(s1);
      var words2 := SplitOnSpace(s2);
      Ratio(CommonCount(words1, words2) * 2, |words1| + |words2|)
  }

  /** `a / b` on exact reals. */
  function Ratio(a: nat, b: nat): (r: real)
    requires b > 0
    ensures r >= 0.0
    ensures a > 0 ==> r > 0.0
    ensures a < b ==> r < 1.0
  {
    a as real / b as real
  }

  /** A string that contains another of the same length is that string. */
  lemma ContainsSameLength(s: String, t: String)
    requires Contains(s, t) && |s| == |t|
    ensures s == t
  {
    var i := IndexOf(s, t);
    assert OccursAt(s, t, i);
    assert i == 0;
    assert s[0..|t|] == s;
  }

  lemma ContainsShorter(s: String, t: String)
    requires Contains(s, t)
    ensures |t| <= |s|
  {
    assert OccursAt(s, t, IndexOf(s, t));
  }

  /** The cases of `calculateSimilarity`: equal normalized strings score 1, exactly one
      empty scores 0, containment scores strictly between 0 and 1, and every score is
      non-negative. */
  lemma SimilarityMeaning(str1: String, str2: String)
    ensures Similarity(str1, str2) >= 0.0
    ensures Normalize(str1) == Normalize(str2) ==> Similarity(str1, str2) == 1.0
    ensures Normalize(str1) != Normalize(str2) && (Normalize(str1) == [] || Normalize(str2) == [])
      ==> Similarity(str1, str2) == 0.0
    ensures var s1 := Normalize(str1); var s2 := Normalize(str2);
      s1 != s2 && s1 != [] && s2 != [] && (Contains(s1, s2) || Contains(s2, s1))
      ==> 0.0 < Similarity(str1, str2) < 1.0
  {
    var s1 := Normalize(str1);
    var s2 := Normalize(str2);
    if s1 != s2 && s1 != [] && s2 != [] && (Contains(s1, s2) || Contains(s2, s1)) {
      if Contains(s1, s2) {
        ContainsShorter(s1, s2);
        if |s1| == |s2| { ContainsSameLength(s1, s2); }
        ContainedHasFewerCodeUnits(s1, s2);
      } else {
        ContainsShorter(s2, s1);
        if |s1| == |s2| { ContainsSameLength(s2, s1); }
        ContainedHasFewerCodeUnits(s2, s1);
      }
    }
  }

  /** Lengths count UTF-16 code units: a stored "abcd" against the page text "😀abcd"
      (U+1F600, a surrogate pair) scores 4/6, below the 0.8 fuzzy-match threshold, where
      counting characters would give 4/5. */
  lemma SimilarityCountsCodeUnits(stored: String, page: String)
    requires stored == "abcd" && page == "\U{1F600}abcd"
    ensures Similarity(page, stored) == 4.0 / 6.0
    ensures Similarity(stored, page) == 4.0 / 6.0
    ensures Similarity(page, stored) < 0.8
  {
    NormalizeOfPlain(stored);
    NormalizeOfPlain(page);
    assert OccursAt(page, stored, 1);
    assert Contains(page, stored);
    Utf16LengthOfBmp(stored);
    assert Utf16Length(page) == 6 by {
      assert page == [page[0]] + stored;
      Utf16LengthAppend([page[0]], stored);
    }
  }

  /** The word-overlap score counts repeated words of the first string, so it can exceed
      1 and is not symmetric: "a a a" against "a y" scores 6/5, the other way 2/5. */
  lemma WordOverlapIsNotASimilarity(s1: String, s2: String)
    requires s1 == "a a a" && s2 == "a y"
    ensures Similarity(s1, s2) == 6.0 / 5.0
    ensures Similarity(s2, s1) == 2.0 / 5.0
  {
    NormalizeOfPlain(s1);
    NormalizeOfPlain(s2);
    assert !Contains(s1, s2) by { NotContainsAY(); }
    assert !Contains(s2, s1) by { ContainsShorterLemma(s2, s1); }
    var w1 := SplitOnSpace(s1);
    var w2 := SplitOnSpace(s2);
    assert w1 == ["a", "a", "a"] by { SplitRepeated(); }
    assert w2 == ["a", "y"] by { SplitPair(); }
    CommonCountOfRepeats();
  }

  lemma CommonCountOfRepeats()
    ensures CommonCount(["a", "a", "a"], ["a", "y"]) == 3
    ensures CommonCount(["a", "y"], ["a", "a", "a"]) == 1
  {
    var w1: seq<String> := ["a", "a", "a"];
    var w2: seq<String> := ["a", "y"];
    assert w1[1..] == ["a", "a"] && w1[2..] == ["a"] && w1[3..] == [];
    assert w2[1..] == ["y"] && w2[2..] == [];
    assert "y" != "a";
    assert "y" !in w1;
  }

  lemma ContainsShorterLemma(s: String, t: String)
    requires |s| < |t|
    ensures !Contains(s, t)
  {
    if Contains(s, t) { ContainsShorter(s, t); }
  }

  lemma NormalizeOfPlain(s: String)
    requires s == "a a a" || s == "a y" || s == "abcd" || s == "\U{1F600}abcd"
    ensures Normalize(s) == s
  {
    assert Trim(s) == s;
    assert ToLower(s) == s;
    CollapseSingleSpaces(s);
  }

  lemma {:induction false} CollapseSingleSpaces(s: String)
    requires forall i :: 0 <= i < |s| && IsSpace(s[i]) ==> s[i] == ' '
    requires forall i :: 0 <= i < |s| - 1 ==> IsSpace(s[i]) ==> !IsSpace(s[i + 1])
    ensures CollapseSpaces(s) == s
  {
    if s != [] {
      CollapseSingleSpaces(s[1..]);
      if IsSpace(s[0]) {
        if |s| > 1 {
          assert !IsSpace(s[1]);
          assert SkipSpaces(s[1..]) == s[1..];
        }
      }
    }
  }

  lemma NotContainsAY()
    ensures !Contains("a a a", "a y")
  {
    var s := "a a a";
    forall j | 0 <= j <= |s| ensures !OccursAt(s, "a y", j) {
      if j + 3 <= |s| {
        assert s[j..j + 3][2] == s[j + 2];
      }
    }
  }

  lemma SplitCons(w: String, rest: String)
    requires ' ' !in w
    ensures SplitOnSpace(w + " " + rest) == [w] + SplitOnSpace(rest)
  {
    var s := w + " " + rest;
    assert s[|w|] == ' ';
    assert OccursAt(s, " ", |w|);
    forall j | 0 <= j < |w| ensures !OccursAt(s, " ", j) {
      assert s[j..j + 1][0] == s[j] == w[j];
    }
    assert IndexOf(s, " ") == |w|;
    assert s[..|w|] == w;
    assert s[|w| + 1..] == rest;
  }

  lemma SplitWord(w: String)
    requires ' ' !in w
    ensures SplitOnSpace(w) == [w]
  {
    forall j | 0 <= j < |w| ensures !OccursAt(w, " ", j) {
      assert w[j..j + 1][0] == w[j];
    }
    assert IndexOf(w, " ") == -1;
  }

  lemma SplitRepeated()
    ensures SplitOnSpace("a a a") == ["a", "a", "a"]
  {
    SplitWord("a");
    SplitCons("a", "a");
    assert "a" + " " + "a" == "a a";
    SplitCons("a", "a a");
    assert "a" + " " + "a a" == "a a a";
  }

  lemma SplitPair()
    ensures SplitOnSpace("a y") == ["a", "y"]
  {
    SplitWord("y");
    SplitCons("a", "y");
    assert "a" + " " + "y" == "a y";
  }

  // ---------------------------------------------------------------------------
  // Classifying one highlight
  // ---------------------------------------------------------------------------

  /** A stored highlight: `id`, and `text` and `html_content`, either of which may be null. */
  datatype Existing = Existing(id: String, text: Option<String>, html: Option<String>)

  /** An update of a stored row: `{ id, text, html }`, both trimmed. */
  datatype Revision = Revision(id: String, text: String, html: String)

  /** What becomes of one highlight read from the page. */
  datatype Verdict = New | Revise(revision: Revision) | Unchanged

  /** The four pairings of normalized text and html the route tests for equality. */
  predicate ExactMatch(h: Highlight, e: Existing) {
    var text := Normalize(h.text);
    var html := Normalize(h.html);
    var existingText := Normalize(OrEmpty(e.text));
    var existingHtml := Normalize(OrEmpty(e.html));
    existingText == text || existingHtml == html || existingText == html || existingHtml == text
  }

  /** Whether an exactly matching row holds different trimmed content. */
  predicate Changed(h: Highlight, e: Existing) {
    Trim(h.text) != Trim(OrEmpty(e.text)) || Trim(h.html) != Trim(OrEmpty(e.html))
  }

  function Max(a: real, b: real): real {
    if a >= b then a else b
  }

  /** The higher of the text similarity and, when the row has html, the html similarity. */
  function Score(h: Highlight, e: Existing): real {
    var textSimilarity := Similarity(h.text, OrEmpty(e.text));
    var htmlSimilarity := if e.html.Some? && e.html.value != [] then Similarity(h.html, e.html.value) else 0.0;
    Max(textSimilarity, htmlSimilarity)
  }

  /** The threshold of a fuzzy match. */
  const Threshold: real := 0.8

  /** The position of the first exactly matching row, or `|rows|`. */
  function FirstExact(h: Highlight, rows: seq<Existing>): (k: nat)
    ensures k <= |rows|
    ensures forall j :: 0 <= j < k ==> !ExactMatch(h, rows[j])
    ensures k < |rows| ==> ExactMatch(h, rows[k])
  {
    if rows == [] then 0
    else if ExactMatch(h, rows[0]) then 0
    else 1 + FirstExact(h, rows[1..])
  }

  /** The score of every row, in order. */
  function Scores(h: Highlight, rows: seq<Existing>): (r: seq<real>)
    ensures |r| == |rows|
  {
    seq(|rows|, i requires 0 <= i < |rows| => Score(h, rows[i]))
  }

  lemma ScoresMeaning(h: Highlight, rows: seq<Existing>)
    ensures forall i :: 0 <= i < |rows| ==> Scores(h, rows)[i] == Score(h, rows[i])
  {
  }

  /** The best fuzzy candidate as the loop keeps it, score by score: a score at the
      threshold replaces the candidate only when it is strictly higher. */
  function BestIndex(scores: seq<real>): (r: Option<nat>)
    ensures r.Some? ==> r.value < |scores|
    decreases |scores|
  {
    if scores == [] then None
    else
      var best := BestIndex(scores[..|scores| - 1]);
      var s := scores[|scores| - 1];
      if s >= Threshold && (best.None? || s > scores[best.value]) then Some(|scores| - 1) else best
  }

  /** The best candidate is the earliest of the highest scores, and there is none exactly
      when every score is below the threshold. */
  lemma {:induction false} BestIndexMeaning(scores: seq<real>)
    ensures BestIndex(scores).None? <==> forall i :: 0 <= i < |scores| ==> scores[i] < Threshold
    ensures BestIndex(scores).Some? ==>
      var b := BestIndex(scores).value;
      scores[b] >= Threshold
      && (forall i :: 0 <= i < |scores| ==> scores[i] <= scores[b])
      && (forall i :: 0 <= i < b ==> scores[i] < scores[b])
    decreases |scores|
  {
    if scores != [] {
      var init := scores[..|scores| - 1];
      BestIndexMeaning(init);
      assert forall i :: 0 <= i < |init| ==> init[i] == scores[i];
    }
  }

  /** The row the fuzzy scan settles on, if any. */
  function BestFuzzy(h: Highlight, rows: seq<Existing>): (r: Option<nat>)
    ensures r.Some? ==> r.value < |rows|
  {
    BestIndex(Scores(h, rows))
  }

  /** The fuzzy candidate is the earliest of the rows with the highest score, and there is
      none exactly when every row scores below the threshold. */
  lemma BestFuzzyMeaning(h: Highlight, rows: seq<Existing>)
    ensures BestFuzzy(h, rows).None? <==> forall i :: 0 <= i < |rows| ==> Score(h, rows[i]) < Threshold
    ensures BestFuzzy(h, rows).Some? ==>
      var b := BestFuzzy(h, rows).value;
      Score(h, rows[b]) >= Threshold
      && (forall i :: 0 <= i < |rows| ==> Score(h, rows[i]) <= Score(h, rows[b]))
      && (forall i :: 0 <= i < b ==> Score(h, rows[i]) < Score(h, rows[b]))
  {
    BestIndexMeaning(Scores(h, rows));
    ScoresMeaning(h, rows);
  }

  /** The verdict for one highlight: the first exact match decides, otherwise the best
      fuzzy match is updated, otherwise the highlight is new. */
  function VerdictOf(h: Highlight, rows: seq<Existing>): Verdict {
    var k := FirstExact(h, rows);
    if k < |rows| then
      if Changed(h, rows[k]) then Revise(Revision(rows[k].id, Trim(h.text), Trim(h.html))) else Unchanged
    else
      match BestFuzzy(h, rows)
      case Some(b) => Revise(Revision(rows[b].id, Trim(h.text), Trim(h.html)))
      case None => New
  }

  /** A highlight is new exactly when no row matches it exactly and every row scores
      below the threshold; an update always targets a stored row and carries the
      highlight's trimmed content. */
  lemma VerdictMeaning(h: Highlight, rows: seq<Existing>)
    ensures VerdictOf(h, rows).New? <==>
      (forall i :: 0 <= i < |rows| ==> !ExactMatch(h, rows[i]) && Score(h, rows[i]) < Threshold)
    ensures VerdictOf(h, rows).Unchanged? ==>
      exists i :: 0 <= i < |rows| && ExactMatch(h, rows[i]) && !Changed(h, rows[i])
    ensures VerdictOf(h, rows).Revise? ==>
      var r := VerdictOf(h, rows).revision;
      r.text == Trim(h.text) && r.html == Trim(h.html)
      && exists i :: 0 <= i < |rows| && rows[i].id == r.id
  {
    BestFuzzyMeaning(h, rows);
    var k := FirstExact(h, rows);
    if k < |rows| {
      assert ExactMatch(h, rows[k]);
    }
  }

  /** The best fuzzy candidate as the source keeps it. */
  datatype Fuzzy = Fuzzy(id: String, similarity: real)

  function CandidateOf(rows: seq<Existing>, scores: seq<real>, best: Option<nat>): Option<Fuzzy>
    requires |scores| == |rows|
    requires best.Some? ==> best.value < |rows|
  {
    if best.None? then None else Some(Fuzzy(rows[best.value].id, scores[best.value]))
  }

  /** One score of the scan: the candidate kept so far is replaced by this row when it
      reaches the threshold and beats the candidate. */
  lemma BestIndexStep(scores: seq<real>, i: nat)
    requires i < |scores|
    ensures BestIndex(scores[..i + 1])
      == var best := BestIndex(scores[..i]);
         if scores[i] >= Threshold && (best.None? || scores[i] > scores[best.value]) then Some(i) else best
  {
    assert scores[..i + 1][..i] == scores[..i];
    assert scores[..i + 1][i] == scores[i];
    var best := BestIndex(scores[..i]);
    if best.Some? {
      assert scores[..i + 1][best.value] == scores[best.value];
    }
  }

  /** `textSimilarity`, `htmlSimilarity` and `maxSimilarity` of one stored row. */
  method ScoreOf(h: Highlight, rows: seq<Existing>, i: nat) returns (maxSimilarity: real)
    requires i < |rows|
    ensures maxSimilarity == Scores(h, rows)[i]
  {
    ScoresMeaning(h, rows);
    var existing := rows[i];
    var textSimilarity := Similarity(h.text, OrEmpty(existing.text));
    var htmlSimilarity := if existing.html.Some? && existing.html.value != [] then Similarity(h.html, existing.html.value) else 0.0;
    maxSimilarity := Max(textSimilarity, htmlSimilarity);
  }

  /** One stored row that is not an exact match: `bestMatch` moves to this row when its
      score reaches the threshold and beats the candidate. */
  method FuzzyUpdate(rows: seq<Existing>, ghost scores: seq<real>, i: nat, bestMatch: Option<Fuzzy>,
                     maxSimilarity: real)
    returns (next: Option<Fuzzy>)
    requires |scores| == |rows| && i < |rows| && maxSimilarity == scores[i]
    requires bestMatch == CandidateOf(rows, scores, BestIndex(scores[..i]))
    ensures next == CandidateOf(rows, scores, BestIndex(scores[..i + 1]))
  {
    BestIndexStep(scores, i);
    next := bestMatch;
    if maxSimilarity >= 0.8 {
      if bestMatch.None? || maxSimilarity > bestMatch.value.similarity {
        next := Some(Fuzzy(rows[i].id, maxSimilarity));
      }
    }
  }

  /** An exact match: the row is updated with the trimmed content when its trimmed text
      or html differs, and left alone otherwise. */
  method ExactVerdict(h: Highlight, existing: Existing) returns (v: Verdict)
    ensures v == if Changed(h, existing) then Revise(Revision(existing.id, Trim(h.text), Trim(h.html))) else Unchanged
  {
    var currentText := Trim(h.text);
    var currentHtml := Trim(h.html);
    var dbText := Trim(OrEmpty(existing.text));
    var dbHtml := Trim(OrEmpty(existing.html));
    if currentText != dbText || currentHtml != dbHtml {
      v := Revise(Revision(existing.id, currentText, currentHtml));
    } else {
      v := Unchanged;
    }
  }

  /** One stored row of the scan: an exact match settles the verdict; otherwise the row's
      score may make it the fuzzy candidate. */
  method ScanRow(h: Highlight, rows: seq<Existing>, ghost scores: seq<real>, i: nat, bestMatch: Option<Fuzzy>)
    returns (exact: bool, v: Verdict, next: Option<Fuzzy>)
    requires scores == Scores(h, rows)
    requires i < |rows| && i <= FirstExact(h, rows)
    requires bestMatch == CandidateOf(rows, scores, BestIndex(scores[..i]))
    ensures exact ==> v == VerdictOf(h, rows)
    ensures !exact ==> v == New && i < FirstExact(h, rows) && next == CandidateOf(rows, scores, BestIndex(scores[..i + 1]))
  {
    var existing := rows[i];
    exact, v, next := ExactMatch(h, existing), New, bestMatch;
    if exact {
      ExactAt(h, rows, i);
      v := ExactVerdict(h, existing);
    } else {
      NotExactAt(h, rows, i);
      var maxSimilarity := ScoreOf(h, rows, i);
      next := FuzzyUpdate(rows, scores, i, bestMatch, maxSimilarity);
    }
  }

  /** The inner loop of the route over the stored rows, for one highlight: it stops at
      the first exact match (the route's `break`) and otherwise keeps the fuzzy candidate. */
  method MatchHighlight(h: Highlight, rows: seq<Existing>) returns (v: Verdict)
    ensures v == VerdictOf(h, rows)
  {
    ghost var scores := Scores(h, rows);
    var matched := false;
    var bestMatch: Option<Fuzzy> := None;
    v := New;
    var i := 0;
    while i < |rows| && !matched
      invariant i <= |rows|
      invariant matched ==> v == VerdictOf(h, rows)
      invariant !matched ==> i <= FirstExact(h, rows) && bestMatch == CandidateOf(rows, scores, BestIndex(scores[..i]))
      decreases |rows| - i, !matched
    {
      matched, v, bestMatch := ScanRow(h, rows, scores, i, bestMatch);
      if !matched {
        i := i + 1;
      }
    }
    if !matched {
      assert scores[..|rows|] == scores;
      v := FuzzyVerdict(h, rows, bestMatch);
    }
  }

  /** After a scan without exact match: the fuzzy candidate, if any, is updated with the
      trimmed content; otherwise the highlight is new. */
  method FuzzyVerdict(h: Highlight, rows: seq<Existing>, bestMatch: Option<Fuzzy>) returns (v: Verdict)
    requires FirstExact(h, rows) == |rows|
    requires bestMatch == CandidateOf(rows, Scores(h, rows), BestIndex(Scores(h, rows)))
    ensures v == VerdictOf(h, rows)
  {
    NoExactVerdict(h, rows, bestMatch);
    v := New;
    if bestMatch.Some? {
      v := Revise(Revision(bestMatch.value.id, Trim(h.text), Trim(h.html)));
    }
  }

  /** A row that matches exactly at or before the first exact match is the first one. */
  lemma ExactAt(h: Highlight, rows: seq<Existing>, i: nat)
    requires i < |rows| && i <= FirstExact(h, rows) && ExactMatch(h, rows[i])
    ensures FirstExact(h, rows) == i
    ensures VerdictOf(h, rows)
      == if Changed(h, rows[i]) then Revise(Revision(rows[i].id, Trim(h.text), Trim(h.html))) else Unchanged
  {
  }

  /** With no exact match, the verdict is the fuzzy candidate the scan kept, if any. */
  lemma NoExactVerdict(h: Highlight, rows: seq<Existing>, bestMatch: Option<Fuzzy>)
    requires FirstExact(h, rows) == |rows|
    requires bestMatch == CandidateOf(rows, Scores(h, rows), BestIndex(Scores(h, rows)))
    ensures VerdictOf(h, rows)
      == if bestMatch.Some? then Revise(Revision(bestMatch.value.id, Trim(h.text), Trim(h.html))) else New
  {
  }

  /** A row that does not match exactly is not the first exact match. */
  lemma NotExactAt(h: Highlight, rows: seq<Existing>, i: nat)
    requires i < |rows| && i <= FirstExact(h, rows) && !ExactMatch(h, rows[i])
    ensures i < FirstExact(h, rows)
  {
  }

  // ---------------------------------------------------------------------------
  // Classifying the page
  // ---------------------------------------------------------------------------

  /** `newHighlights`, `updatedHighlights` and `skipped` after the outer loop. */
  datatype Classified = Classified(added: seq<Highlight>, updates: seq<Revision>, skipped: nat)

  function Classify(hs: seq<Highlight>, rows: seq<Existing>): Classified
    decreases |hs|
  {
    if hs == [] then Classified([], [], 0)
    else
      var c := Classify(hs[..|hs| - 1], rows);
      var h := hs[|hs| - 1];
      match VerdictOf(h, rows)
      case New => c.(added := c.added + [h])
      case Revise(r) => c.(updates := c.updates + [r])
      case Unchanged => c.(skipped := c.skipped + 1)
  }

  /** Every highlight is classified exactly once; the new ones are those of the page with
      no exact match and no row at the threshold, in page order. */
  lemma {:induction false} ClassifyMeaning(hs: seq<Highlight>, rows: seq<Existing>)
    ensures var c := Classify(hs, rows);
      |c.added| + |c.updates| + c.skipped == |hs|
    ensures Classify(hs, rows).added == NewOnes(hs, rows)
    decreases |hs|
  {
    if hs != [] {
      ClassifyMeaning(hs[..|hs| - 1], rows);
    }
  }

  /** The highlights of the page that get the verdict `New`, in order. */
  function NewOnes(hs: seq<Highlight>, rows: seq<Existing>): (r: seq<Highlight>)
    ensures |r| <= |hs|
    ensures forall h :: h in r ==> h in hs && VerdictOf(h, rows).New?
    decreases |hs|
  {
    if hs == [] then []
    else
      var h := hs[|hs| - 1];
      NewOnes(hs[..|hs| - 1], rows) + (if VerdictOf(h, rows).New? then [h] else [])
  }

  /** The outer loop of the route over the highlights read from the page. */
  method ClassifyHighlights(hs: seq<Highlight>, rows: seq<Existing>) returns (c: Classified)
    ensures c == Classify(hs, rows)
  {
    var newHighlights: seq<Highlight> := [];
    var updatedHighlights: seq<Revision> := [];
    var skipped := 0;
    for i := 0 to |hs|
      invariant Classified(newHighlights, updatedHighlights, skipped) == Classify(hs[..i], rows)
    {
      var highlight := hs[i];
      assert hs[..i + 1][..i] == hs[..i] && hs[..i + 1][i] == highlight;
      var v := MatchHighlight(highlight, rows);
      match v
      case New => newHighlights := newHighlights + [highlight];
      case Revise(r) => updatedHighlights := updatedHighlights + [r];
      case Unchanged => skipped := skipped + 1;
    }
    assert hs[..|hs|] == hs;
    c := Classified(newHighlights, updatedHighlights, skipped);
  }

  // ---------------------------------------------------------------------------
  // The route
  // ---------------------------------------------------------------------------

  /** The answers of `GET /api/notion/auto-import`: 401 for a wrong cron secret, 400 when
      the Notion settings are missing, "No highlights found", or the counts of a
      completed sync. */
  datatype AutoImportResponse =
    | Unauthorized
    | NotConfigured
    | NoHighlights
    | Completed(imported: nat, updated: nat, skipped: nat, total: nat)

  /** The secret the request presents: the `authorization` header without its first
      "Bearer ", or else the `secret` query parameter. */
  function PresentedSecret(authorization: Option<String>, secretParam: Option<String>): Option<String> {
    if authorization.Some? && ReplaceFirst(authorization.value, "Bearer ", "") != [] then
      Some(ReplaceFirst(authorization.value, "Bearer ", ""))
    else secretParam
  }

  /** The route, with every database update and the insert succeeding; `page` is the
      page's blocks and `rows` the stored highlights. */
  function AutoImportGet(cronSecret: Option<String>, authorization: Option<String>, secretParam: Option<String>,
                      apiKey: Option<String>, pageId: Option<String>,
                      page: seq<Block>, rows: seq<Existing>): AutoImportResponse
  {
    if cronSecret.Some? && cronSecret.value != [] && PresentedSecret(authorization, secretParam) != cronSecret then
      Unauthorized
    else if apiKey.None? || apiKey.value == [] || pageId.None? || pageId.value == [] then NotConfigured
    else
      Reconciled(PageHighlights(AutoImport, page), rows)
  }

  /** The answer once the page's highlights are read. */
  function Reconciled(highlights: seq<Highlight>, rows: seq<Existing>): AutoImportResponse {
    if |highlights| == 0 then NoHighlights
    else
      var c := Classify(highlights, rows);
      Completed(|c.added|, |c.updates|, c.skipped, |highlights|)
  }

  lemma ReconciledCounts(highlights: seq<Highlight>, rows: seq<Existing>)
    ensures var r := Reconciled(highlights, rows);
      && (r.Completed? ==> r.imported + r.updated + r.skipped == r.total == |highlights| > 0)
      && (r.NoHighlights? <==> highlights == [])
  {
    ClassifyMeaning(highlights, rows);
  }

  /** Without a configured secret every request is let through, and with one a request
      that presents it is. */
  lemma AutoImportAuthorization(cronSecret: Option<String>, authorization: Option<String>, secretParam: Option<String>,
                                apiKey: Option<String>, pageId: Option<String>,
                                page: seq<Block>, rows: seq<Existing>)
    ensures var r := AutoImportGet(cronSecret, authorization, secretParam, apiKey, pageId, page, rows);
      (cronSecret.None? || cronSecret.value == [] || PresentedSecret(authorization, secretParam) == cronSecret)
      <==> !r.Unauthorized?
  {
  }

  /** A completed sync accounts for every highlight of the page exactly once. */
  lemma AutoImportCounts(cronSecret: Option<String>, authorization: Option<String>, secretParam: Option<String>,
                         apiKey: Option<String>, pageId: Option<String>,
                         page: seq<Block>, rows: seq<Existing>)
    ensures var r := AutoImportGet(cronSecret, authorization, secretParam, apiKey, pageId, page, rows);
      r.Completed? ==> r.imported + r.updated + r.skipped == r.total == |PageHighlights(AutoImport, page)|
  {
    ReconciledCounts(PageHighlights(AutoImport, page), rows);
  }

  /** "No highlights found" is the answer, once authorized and configured, exactly when
      the page holds no highlight. */
  lemma AutoImportNoHighlights(cronSecret: Option<String>, authorization: Option<String>, secretParam: Option<String>,
                               apiKey: Option<String>, pageId: Option<String>,
                               page: seq<Block>, rows: seq<Existing>)
    ensures var r := AutoImportGet(cronSecret, authorization, secretParam, apiKey, pageId, page, rows);
      !r.Unauthorized? && !r.NotConfigured? ==> (r.NoHighlights? <==> PageHighlights(AutoImport, page) == [])
  {
    ReconciledCounts(PageHighlights(AutoImport, page), rows);
  }
}
