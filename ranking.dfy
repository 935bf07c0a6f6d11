/** The ranking pipelines of the search endpoints (app/api/search/route.ts POST and
    app/api/search/similar/route.ts POST): every candidate is scored against the query
    under one IDF table built from the query and all candidates, scores above a threshold
    are kept, sorted by descending score with ties in candidate order (a stable sort), and
    sliced. The database queries that produce the candidates are inputs. */
module Ranking {
  import opened Text
  import opened Wrappers
  import Tokenizer
  import TfIdf

  /** A stored highlight, as far as ranking reads it. */
  datatype Highlight = Highlight(id: String, text: String, html: String)

  /** A candidate with its similarity score. */
  datatype Scored = Scored(id: String, score: real)

  /** `h.html_content || h.text`: the HTML when present, otherwise the plain text. */
  function Content(h: Highlight): String {
    if h.html != [] then h.html else h.text
  }

  /** The documents the shared IDF is built from: the query's tokens, then every candidate's. */
  function Corpus(queryWords: seq<String>, cands: seq<Highlight>): (docs: seq<seq<String>>)
    ensures |docs| == |cands| + 1
    ensures docs[0] == queryWords
  {
    [queryWords] + seq(|cands|, k requires 0 <= k < |cands| => Tokenizer.ExtractWords(Content(cands[k])))
  }

  /** After the query's tokens, document `k + 1` is candidate `k`'s extracted words of
      `html_content || text`. */
  lemma CorpusDocuments(queryWords: seq<String>, cands: seq<Highlight>)
    ensures forall k :: 0 <= k < |cands| ==>
      Corpus(queryWords, cands)[k + 1] == Tokenizer.ExtractWords(Content(cands[k]))
  {
  }

  /** Every candidate scored against `query` under the shared IDF table, in candidate order. */
  function ScoreAll(query: String, cands: seq<Highlight>, idf: map<String, real>,
                    ln: real -> real, sqrt: real -> real): (r: seq<Scored>)
    ensures |r| == |cands|
    ensures forall k :: 0 <= k < |cands| ==> r[k].id == cands[k].id
    ensures forall k :: 0 <= k < |cands| ==>
      r[k].score == TfIdf.Similarity(query, Content(cands[k]), Some(idf), ln, sqrt)
  {
    seq(|cands|, k requires 0 <= k < |cands| =>
      Scored(cands[k].id, TfIdf.Similarity(query, Content(cands[k]), Some(idf), ln, sqrt)))
  }

  // ---------------------------------------------------------------- filter, sort, slice

  /** `.filter(h => h.similarity > threshold)` */
  function Above(s: seq<Scored>, threshold: real): (r: seq<Scored>)
    ensures |r| <= |s|
  {
    if s == [] then []
    else (if s[0].score > threshold then [s[0]] else []) + Above(s[1..], threshold)
  }

  /** The filter keeps exactly the entries scoring above the threshold, each as often as
      it occurs. */
  lemma {:induction false} AboveMeaning(s: seq<Scored>, threshold: real)
    ensures forall x :: x in Above(s, threshold) ==> x.score > threshold
    ensures forall x :: multiset(Above(s, threshold))[x] == if x.score > threshold then multiset(s)[x] else 0
  {
    if s != [] {
      AboveMeaning(s[1..], threshold);
      assert s == [s[0]] + s[1..];
    }
  }

  predicate SortedDesc(s: seq<Scored>) {
    forall i, j :: 0 <= i < j < |s| ==> s[i].score >= s[j].score
  }

  /** Places `x` before the first entry that does not score more than it. */
  function Insert(x: Scored, t: seq<Scored>): seq<Scored> {
    if t == [] || x.score >= t[0].score then [x] + t else [t[0]] + Insert(x, t[1..])
  }

  /** Insertion adds exactly `x`. */
  lemma {:induction false} InsertAddsOne(x: Scored, t: seq<Scored>)
    ensures multiset(Insert(x, t)) == multiset{x} + multiset(t)
  {
    if t != [] && x.score < t[0].score {
      InsertAddsOne(x, t[1..]);
      assert t == [t[0]] + t[1..];
    }
  }

  /** Insertion keeps a sorted list sorted. */
  lemma {:induction false} InsertKeepsSorted(x: Scored, t: seq<Scored>)
    requires SortedDesc(t)
    ensures SortedDesc(Insert(x, t))
  {
    if t == [] || x.score >= t[0].score {
      SortedCons(x, t);
    } else {
      var rest := Insert(x, t[1..]);
      InsertKeepsSorted(x, t[1..]);
      InsertAddsOne(x, t[1..]);
      forall y | y in rest ensures y.score <= t[0].score {
        assert y in multiset(rest);
        if y != x {
          assert y in t[1..];
        }
      }
      SortedCons(t[0], rest);
    }
  }

  /** A sorted list stays sorted behind a head that scores at least as much as all of it. */
  lemma SortedCons(a: Scored, r: seq<Scored>)
    requires SortedDesc(r)
    requires forall y :: y in r ==> y.score <= a.score
    ensures SortedDesc([a] + r)
  {
    var s := [a] + r;
    forall i, j | 0 <= i < j < |s| ensures s[i].score >= s[j].score {
      if i == 0 {
        assert s[j] in r;
      } else {
        assert s[i] == r[i - 1] && s[j] == r[j - 1];
      }
    }
  }

  /** `.sort((a, b) => b.similarity - a.similarity)`: a stable sort by descending score. */
  function SortByScore(s: seq<Scored>): seq<Scored> {
    if s == [] then [] else Insert(s[0], SortByScore(s[1..]))
  }

  /** The sort returns a permutation of its input in non-increasing score order. */
  lemma {:induction false} SortByScoreMeaning(s: seq<Scored>)
    ensures multiset(SortByScore(s)) == multiset(s)
    ensures SortedDesc(SortByScore(s))
  {
    if s != [] {
      SortByScoreMeaning(s[1..]);
      InsertAddsOne(s[0], SortByScore(s[1..]));
      InsertKeepsSorted(s[0], SortByScore(s[1..]));
      assert s == [s[0]] + s[1..];
    }
  }

  /** The entries scoring exactly `v`, in order. */
  function WithScore(s: seq<Scored>, v: real): seq<Scored> {
    if s == [] then [] else (if s[0].score == v then [s[0]] else []) + WithScore(s[1..], v)
  }

  lemma {:induction false} WithScoreInsert(x: Scored, t: seq<Scored>, v: real)
    ensures WithScore(Insert(x, t), v) == if x.score == v then [x] + WithScore(t, v) else WithScore(t, v)
  {
    if t == [] || x.score >= t[0].score {
      assert ([x] + t)[1..] == t;
    } else {
      WithScoreInsert(x, t[1..], v);
      var rest := Insert(x, t[1..]);
      assert ([t[0]] + rest)[1..] == rest;
    }
  }

  /** The sort is stable: entries of equal score keep their relative order. */
  lemma {:induction false} SortIsStable(s: seq<Scored>, v: real)
    ensures WithScore(SortByScore(s), v) == WithScore(s, v)
  {
    if s != [] {
      SortIsStable(s[1..], v);
      WithScoreInsert(s[0], SortByScore(s[1..]), v);
    }
  }

  /** Filter then sort. */
  function Rank(s: seq<Scored>, threshold: real): seq<Scored> {
    SortByScore(Above(s, threshold))
  }

  /** The ranking holds exactly the entries above the threshold, in non-increasing score
      order, with ties in their original order. */
  lemma RankMeaning(s: seq<Scored>, threshold: real)
    ensures SortedDesc(Rank(s, threshold))
    ensures forall x :: x in Rank(s, threshold) ==> x.score > threshold
    ensures forall x :: multiset(Rank(s, threshold))[x] == if x.score > threshold then multiset(s)[x] else 0
    ensures forall v :: WithScore(Rank(s, threshold), v) == WithScore(Above(s, threshold), v)
  {
    AboveMeaning(s, threshold);
    SortByScoreMeaning(Above(s, threshold));
    var r := Rank(s, threshold);
    forall x | x in r ensures x.score > threshold {
      assert x in multiset(Above(s, threshold));
    }
    forall v ensures WithScore(r, v) == WithScore(Above(s, threshold), v) {
      SortIsStable(Above(s, threshold), v);
    }
  }

  /** Sorting keeps the number of entries above the threshold. */
  lemma RankLength(s: seq<Scored>, threshold: real)
    ensures |Rank(s, threshold)| == |Above(s, threshold)|
  {
    SortByScoreMeaning(Above(s, threshold));
    assert |multiset(Rank(s, threshold))| == |multiset(Above(s, threshold))|;
  }

  /** `.slice(from, to)` */
  function Slice(s: seq<Scored>, from: nat, to: nat): (r: seq<Scored>)
    requires from <= to
  {
    var hi := if to < |s| then to else |s|;
    var lo := if from < hi then from else hi;
    s[lo..hi]
  }

  /** The slice holds the entries from `min(from, n)` up to `min(to, n)`: exactly
      `min(to, n) - min(from, n)` of them, the pieces of a split composing back. */
  lemma SliceMeaning(s: seq<Scored>, from: nat, to: nat)
    requires from <= to
    ensures |Slice(s, from, to)| == Min(to, |s|) - Min(from, |s|)
    ensures |Slice(s, from, to)| <= to - from
    ensures Slice(s, from, to) == s[Min(from, |s|)..Min(to, |s|)]
    ensures Slice(s, 0, from) + Slice(s, from, to) == Slice(s, 0, to)
    ensures forall x :: x in Slice(s, from, to) ==> x in s
    ensures SortedDesc(s) ==> SortedDesc(Slice(s, 0, to))
  {
  }

  // ---------------------------------------------------------------- endpoints

  /** The `n` best entries above the threshold: `.filter(...).sort(...).slice(0, n)`. */
  function Top(s: seq<Scored>, threshold: real, n: nat): seq<Scored> {
    Slice(Rank(s, threshold), 0, n)
  }

  /** At most `n` entries, each an entry of the input scoring above the threshold, in
      non-increasing order; nothing left out scores more than an entry kept. */
  lemma TopMeaning(s: seq<Scored>, threshold: real, n: nat)
    ensures |Top(s, threshold, n)| == Min(n, |Rank(s, threshold)|)
    ensures |Rank(s, threshold)| == |Above(s, threshold)|
    ensures Top(s, threshold, n) == Rank(s, threshold)[..|Top(s, threshold, n)|]
    ensures SortedDesc(Top(s, threshold, n))
    ensures forall x :: x in Top(s, threshold, n) ==> x in s && x.score > threshold
    ensures forall i, j :: 0 <= i < |Top(s, threshold, n)| <= j < |Rank(s, threshold)| ==>
      Top(s, threshold, n)[i].score >= Rank(s, threshold)[j].score
  {
    var ranked := Rank(s, threshold);
    RankMeaning(s, threshold);
    RankLength(s, threshold);
    SliceMeaning(ranked, 0, n);
    forall x | x in Top(s, threshold, n) ensures x in s && x.score > threshold {
      assert x in ranked;
      assert multiset(ranked)[x] > 0;
    }
  }

  /** Every candidate scored against `target` under the IDF of the target and all candidates. */
  function ScoreCandidates(target: String, cands: seq<Highlight>,
                           ln: real -> real, sqrt: real -> real): seq<Scored>
  {
    var idf := TfIdf.InverseDocFrequencies(Corpus(Tokenizer.ExtractWords(target), cands), ln);
    ScoreAll(target, cands, idf, ln, sqrt)
  }

  /** Scoring keeps one entry per candidate, under that candidate's id. */
  lemma ScoreCandidatesIds(target: String, cands: seq<Highlight>, ln: real -> real, sqrt: real -> real)
    ensures |ScoreCandidates(target, cands, ln, sqrt)| == |cands|
    ensures forall x :: x in ScoreCandidates(target, cands, ln, sqrt) ==>
      exists k :: 0 <= k < |cands| && cands[k].id == x.id
  {
    var scored := ScoreCandidates(target, cands, ln, sqrt);
    forall x | x in scored ensures exists k :: 0 <= k < |cands| && cands[k].id == x.id {
      var k :| 0 <= k < |scored| && scored[k] == x;
      assert cands[k].id == x.id;
    }
  }

  /** The response of the search endpoint. */
  datatype SearchResponse = QueryRequired | Found(results: seq<Scored>, similar: seq<Scored>)

  /** Semantic search: no query (or an empty one) is rejected; a query without tokens or an
      empty candidate list gives two empty lists; otherwise ranks 0-19 are the results and
      ranks 20-29 the similar list, at threshold 0.15. */
  function SemanticSearch(query: Option<String>, cands: seq<Highlight>,
                          ln: real -> real, sqrt: real -> real): SearchResponse
  {
    if query.None? || query.value == [] then QueryRequired
    else if Tokenizer.ExtractWords(query.value) == [] || cands == [] then Found([], [])
    else
      var ranked := Rank(ScoreCandidates(query.value, cands, ln, sqrt), 0.15);
      Found(Slice(ranked, 0, 20), Slice(ranked, 20, 30))
  }

  /** Both lists together are the top 30 in score order: the results are ranks 0-19 and
      the similar list ranks 20-29 of the ranking at 0.15, every score above 0.15, every
      result scoring at least as much as every similar entry. */
  lemma SemanticSearchMeaning(query: Option<String>, cands: seq<Highlight>,
                              ln: real -> real, sqrt: real -> real)
    ensures query.None? || query.value == [] <==> SemanticSearch(query, cands, ln, sqrt).QueryRequired?
    ensures query.Some? && query.value != [] && (Tokenizer.ExtractWords(query.value) == [] || cands == []) ==>
      SemanticSearch(query, cands, ln, sqrt) == Found([], [])
    ensures query.Some? && query.value != [] && Tokenizer.ExtractWords(query.value) != [] && cands != [] ==>
      var r := SemanticSearch(query, cands, ln, sqrt);
      var ranked := Rank(ScoreCandidates(query.value, cands, ln, sqrt), 0.15);
      && r.results + r.similar == Top(ScoreCandidates(query.value, cands, ln, sqrt), 0.15, 30)
      && |r.results| == Min(20, |ranked|)
      && |r.similar| == Min(30, |ranked|) - Min(20, |ranked|)
    ensures SemanticSearch(query, cands, ln, sqrt).Found? ==>
      var r := SemanticSearch(query, cands, ln, sqrt);
      |r.results| <= 20 && |r.similar| <= 10 &&
      SortedDesc(r.results + r.similar) &&
      (forall x :: x in r.results + r.similar ==> x.score > 0.15) &&
      (|r.similar| > 0 ==> |r.results| == 20)
  {
    var r := SemanticSearch(query, cands, ln, sqrt);
    if r.Found? && r != Found([], []) {
      var scored := ScoreCandidates(query.value, cands, ln, sqrt);
      SplitTop(scored, r.results, r.similar);
    }
  }

  /** Ranks 0-19 and 20-29 of a ranking, taken together, are its top 30; the first part
      holds `min(20, n)` entries and the second the next `min(30, n) - min(20, n)`. */
  lemma SplitTop(scored: seq<Scored>, results: seq<Scored>, similar: seq<Scored>)
    requires results == Slice(Rank(scored, 0.15), 0, 20)
    requires similar == Slice(Rank(scored, 0.15), 20, 30)
    ensures results + similar == Top(scored, 0.15, 30)
    ensures |results| == Min(20, |Rank(scored, 0.15)|)
    ensures |similar| == Min(30, |Rank(scored, 0.15)|) - Min(20, |Rank(scored, 0.15)|)
    ensures |results| <= 20 && |similar| <= 10
    ensures SortedDesc(results + similar)
    ensures forall x :: x in results + similar ==> x.score > 0.15
    ensures |similar| > 0 ==> |results| == 20
  {
    var ranked := Rank(scored, 0.15);
    SliceMeaning(ranked, 0, 20);
    SliceMeaning(ranked, 20, 30);
    SliceMeaning(ranked, 0, 30);
    TopMeaning(scored, 0.15, 30);
  }

  /** The shared IDF is built over the query and every candidate: N = candidates + 1. */
  lemma CorpusHoldsQueryAndCandidates(queryWords: seq<String>, cands: seq<Highlight>)
    ensures |Corpus(queryWords, cands)| == |cands| + 1
    ensures forall w :: w in queryWords ==> TfIdf.InSomeDoc(Corpus(queryWords, cands), w)
  {
    var docs := Corpus(queryWords, cands);
    forall w | w in queryWords ensures TfIdf.InSomeDoc(docs, w) {
      assert w in docs[0];
    }
  }

  /** The entries whose id is not listed in `exclude`, in order. */
  function Without(s: seq<Scored>, exclude: seq<String>): (r: seq<Scored>)
    ensures forall x :: x in r <==> x in s && x.id !in exclude
    ensures |r| <= |s|
  {
    if s == [] then []
    else
      assert s == [s[0]] + s[1..];
      (if s[0].id in exclude then [] else [s[0]]) + Without(s[1..], exclude)
  }

  /** Full-text search's similar list: the top 10 above 0.15, then dropping highlights that
      are already among the text matches. */
  function FulltextSimilar(query: String, matchedIds: seq<String>, cands: seq<Highlight>,
                           ln: real -> real, sqrt: real -> real): seq<Scored>
  {
    if cands == [] then []
    else Without(Top(ScoreCandidates(query, cands, ln, sqrt), 0.15, 10), matchedIds)
  }

  /** At most 10 entries, none of them a text match, every score above 0.15: an entry is
      listed exactly when it is among the top 10 above 0.15 and not a text match. */
  lemma FulltextSimilarMeaning(query: String, matchedIds: seq<String>, cands: seq<Highlight>,
                               ln: real -> real, sqrt: real -> real)
    ensures forall x :: x in FulltextSimilar(query, matchedIds, cands, ln, sqrt) <==>
      x in Top(ScoreCandidates(query, cands, ln, sqrt), 0.15, 10) && x.id !in matchedIds
    ensures |FulltextSimilar(query, matchedIds, cands, ln, sqrt)| <= 10
    ensures forall x :: x in FulltextSimilar(query, matchedIds, cands, ln, sqrt) ==>
      x.id !in matchedIds && x.score > 0.15
  {
    TopMeaning(ScoreCandidates(query, cands, ln, sqrt), 0.15, 10);
    ScoreCandidatesIds(query, cands, ln, sqrt);
  }

  /** The response of the similar-highlights endpoint. */
  datatype SimilarResponse = IdAndTextRequired | Similar(list: seq<Scored>)

  /** The candidates other than the highlight itself (`.neq('id', highlightId)`). */
  function Others(all: seq<Highlight>, highlightId: String): (r: seq<Highlight>)
    ensures forall h :: h in r <==> h in all && h.id != highlightId
  {
    if all == [] then []
    else
      assert all == [all[0]] + all[1..];
      (if all[0].id == highlightId then [] else [all[0]]) + Others(all[1..], highlightId)
  }

  /** The similar-highlights endpoint: the target is its HTML when given, else its text;
      the top 10 other highlights scoring above 0.2. */
  function SimilarHighlights(highlightId: String, text: String, htmlContent: String,
                             all: seq<Highlight>, ln: real -> real, sqrt: real -> real): SimilarResponse
  {
    if highlightId == [] || text == [] then IdAndTextRequired
    else
      var target := if htmlContent != [] then htmlContent else text;
      var cands := Others(all, highlightId);
      if cands == [] then Similar([])
      else Similar(Top(ScoreCandidates(target, cands, ln, sqrt), 0.2, 10))
  }

  /** A missing id or text is rejected before any scoring; otherwise the `min(10, n)`
      best of the `n` other highlights scoring above 0.2, none of them the highlight
      itself, in non-increasing order, with nothing left out scoring more. */
  lemma SimilarHighlightsMeaning(highlightId: String, text: String, htmlContent: String,
                                 all: seq<Highlight>, ln: real -> real, sqrt: real -> real)
    ensures SimilarHighlights(highlightId, text, htmlContent, all, ln, sqrt).IdAndTextRequired?
      <==> highlightId == [] || text == []
    ensures SimilarHighlights(highlightId, text, htmlContent, all, ln, sqrt).Similar? ==>
      var list := SimilarHighlights(highlightId, text, htmlContent, all, ln, sqrt).list;
      var scored := ScoreCandidates(if htmlContent != [] then htmlContent else text,
                                    Others(all, highlightId), ln, sqrt);
      && |list| == Min(10, |Above(scored, 0.2)|)
      && (forall i, j :: 0 <= i < |list| <= j < |Rank(scored, 0.2)| ==>
            list[i].score >= Rank(scored, 0.2)[j].score)
      && SortedDesc(list)
      && forall x :: x in list ==> x.score > 0.2 && x.id != highlightId
  {
    var r := SimilarHighlights(highlightId, text, htmlContent, all, ln, sqrt);
    var cands := Others(all, highlightId);
    var target := if htmlContent != [] then htmlContent else text;
    var scored := ScoreCandidates(target, cands, ln, sqrt);
    TopMeaning(scored, 0.2, 10);
    ScoreCandidatesIds(target, cands, ln, sqrt);
    if r.Similar? && cands != [] {
      forall x | x in r.list ensures x.id != highlightId {
        var k :| 0 <= k < |cands| && cands[k].id == x.id;
        assert cands[k] in cands;
      }
    }
  }
}
