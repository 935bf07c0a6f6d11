/** TF-IDF weighting and cosine similarity of the search engine
    (app/api/search/route.ts:57-161, copied verbatim in app/api/search/similar/route.ts).
    Term frequencies are exact rationals; the logarithm and the square root are
    parameters, so only their arguments are modelled. */
module TfIdf {
  import opened Text
  import opened Wrappers
  import Tokenizer

  /** A JavaScript `Map<string, number>`: its keys in insertion order and its entries. */
  datatype Table = Table(keys: seq<String>, weight: map<String, real>)

  predicate NoDuplicates(s: seq<String>) {
    forall i, j :: 0 <= i < j < |s| ==> s[i] != s[j]
  }

  /** `m.get(w) || 0` */
  function Get(m: map<String, real>, w: String): real {
    if w in m then m[w] else 0.0
  }

  /** Occurrences of `w` in `ws`. */
  function Count(ws: seq<String>, w: String): nat {
    multiset(ws)[w]
  }

  /** `[...new Set(ws)]`: the distinct tokens in order of first occurrence. */
  function Distinct(ws: seq<String>): seq<String> {
    if ws == [] then []
    else
      var d := Distinct(ws[..|ws| - 1]);
      if ws[|ws| - 1] in d then d else d + [ws[|ws| - 1]]
  }

  /** The distinct list holds every token exactly once. */
  lemma {:induction false} DistinctMeaning(ws: seq<String>)
    ensures NoDuplicates(Distinct(ws))
    ensures forall w :: w in Distinct(ws) <==> w in ws
  {
    if ws != [] {
      var p := ws[..|ws| - 1];
      DistinctMeaning(p);
      assert ws == p + [ws[|ws| - 1]];
    }
  }

  lemma DistinctSnoc(p: seq<String>, x: String)
    ensures Distinct(p + [x]) == if x in p then Distinct(p) else Distinct(p) + [x]
  {
    DistinctMeaning(p);
    assert (p + [x])[..|p|] == p;
  }

  lemma AddFractions(a: real, b: real, n: real)
    requires n > 0.0
    ensures a / n + b / n == (a + b) / n
  {
  }

  lemma ZeroShare(total: nat)
    requires total > 0
    ensures 0 as real / total as real == 0.0
  {
  }

  // ---------------------------------------------------------------- TF

  /** The term-frequency table: one entry per distinct token, in order of first
      occurrence, worth the token's share of all tokens. */
  function TermFrequencies(words: seq<String>): Table {
    if words == [] then Table([], map[])
    else Table(Distinct(words), map w | w in words :: Count(words, w) as real / |words| as real)
  }

  /** The TF table is empty for no tokens; otherwise its keys are the distinct tokens
      and each weight is occurrences / total. */
  lemma TermFrequenciesMeaning(words: seq<String>)
    ensures words == [] ==> TermFrequencies(words) == Table([], map[])
    ensures TermFrequencies(words).keys == Distinct(words)
    ensures NoDuplicates(TermFrequencies(words).keys)
    ensures forall w :: w in TermFrequencies(words).weight <==> w in words
    ensures forall w :: w in TermFrequencies(words).weight ==>
      TermFrequencies(words).weight[w] == Count(words, w) as real / |words| as real
  {
    DistinctMeaning(words);
  }

  /** One loop step of `calculateTF`: `tf.set(word, (tf.get(word) || 0) + 1 / totalWords)`. */
  function AddOccurrence(tf: Table, w: String, total: nat): Table
    requires total > 0
  {
    Table(if w in tf.weight then tf.keys else tf.keys + [w],
          tf.weight[w := Get(tf.weight, w) + 1.0 / total as real])
  }

  /** The table `calculateTF` has built after its first `i` steps. */
  function TfPrefix(words: seq<String>, i: nat, total: nat): Table
    requires i <= |words| && total > 0
  {
    if i == 0 then Table([], map[]) else AddOccurrence(TfPrefix(words, i - 1, total), words[i - 1], total)
  }

  /** `calculateTF`: adds 1/total to a token's entry for each occurrence. */
  method CalculateTF(words: seq<String>) returns (tf: Table)
    ensures tf == TermFrequencies(words)
  {
    tf := Table([], map[]);
    var total := |words|;
    if total == 0 {
      return;
    }
    var i := 0;
    while i < total
      invariant 0 <= i <= total
      invariant tf == TfPrefix(words, i, total)
    {
      tf := AddOccurrence(tf, words[i], total);
      i := i + 1;
    }
    TfPrefixIsTermFrequencies(words);
  }

  /** What the first `i` steps have built: the distinct tokens so far, each worth count/total. */
  ghost predicate TfAfter(words: seq<String>, i: nat, total: nat, tf: Table)
    requires i <= |words| && total > 0
  {
    tf.keys == Distinct(words[..i]) &&
    (forall w :: w in tf.weight <==> w in words[..i]) &&
    (forall w :: w in tf.weight ==> tf.weight[w] == Count(words[..i], w) as real / total as real)
  }

  /** One more occurrence adds 1/total to a token's share and leaves the others alone. */
  lemma CountSnoc(p: seq<String>, x: String, total: nat)
    requires total > 0
    ensures Count(p + [x], x) as real / total as real == Count(p, x) as real / total as real + 1.0 / total as real
    ensures forall w :: w != x ==> Count(p + [x], w) == Count(p, w)
  {
    assert multiset(p + [x]) == multiset(p) + multiset{x};
    AddFractions(Count(p, x) as real, 1.0, total as real);
  }

  lemma {:induction false} TfPrefixMeaning(words: seq<String>, i: nat, total: nat)
    requires i <= |words| && total > 0
    ensures TfAfter(words, i, total, TfPrefix(words, i, total))
  {
    if i > 0 {
      TfPrefixMeaning(words, i - 1, total);
      var p := words[..i - 1];
      var w := words[i - 1];
      assert words[..i] == p + [w];
      DistinctSnoc(p, w);
      CountSnoc(p, w, total);
      var before := TfPrefix(words, i - 1, total);
      var after := TfPrefix(words, i, total);
      assert after == AddOccurrence(before, w, total);
      forall u | u in after.weight
        ensures after.weight[u] == Count(p + [w], u) as real / total as real
      {
        if u == w {
          if w !in before.weight {
            ZeroShare(total);
            assert Count(p, w) == 0;
          }
        } else {
          assert after.weight[u] == before.weight[u];
        }
      }
    }
  }

  lemma TfPrefixIsTermFrequencies(words: seq<String>)
    requires words != []
    ensures TfPrefix(words, |words|, |words|) == TermFrequencies(words)
  {
    var t := TfPrefix(words, |words|, |words|);
    var f := TermFrequencies(words);
    assert t.keys == f.keys && t.weight == f.weight by {
      TfPrefixMeaning(words, |words|, |words|);
      TermFrequenciesMeaning(words);
      assert words[..|words|] == words;
      assert t.weight.Keys == f.weight.Keys;
      forall u | u in t.weight ensures t.weight[u] == f.weight[u] {
      }
    }
  }

  /** Sum of the weights stored under `keys`. */
  function WeightSum(keys: seq<String>, m: map<String, real>): real {
    if keys == [] then 0.0 else Get(m, keys[0]) + WeightSum(keys[1..], m)
  }

  /** Total number of occurrences in `ws` of the tokens listed in `d`. */
  function CountSum(d: seq<String>, ws: seq<String>): nat {
    if d == [] then 0 else Count(ws, d[0]) + CountSum(d[1..], ws)
  }

  lemma {:induction false} CountSumConcat(a: seq<String>, b: seq<String>, ws: seq<String>)
    ensures CountSum(a + b, ws) == CountSum(a, ws) + CountSum(b, ws)
  {
    if a == [] {
      assert a + b == b;
    } else {
      assert (a + b)[1..] == a[1..] + b;
      CountSumConcat(a[1..], b, ws);
    }
  }

  lemma {:induction false} CountSumSnoc(d: seq<String>, p: seq<String>, x: String)
    ensures CountSum(d, p + [x]) == CountSum(d, p) + Count(d, x)
  {
    if d != [] {
      assert d == [d[0]] + d[1..];
      assert multiset(p + [x]) == multiset(p) + multiset{x};
      CountSumSnoc(d[1..], p, x);
    }
  }

  lemma {:induction false} DistinctCountsOnce(d: seq<String>, x: String)
    requires NoDuplicates(d)
    ensures Count(d, x) == if x in d then 1 else 0
  {
    if d != [] {
      assert d == [d[0]] + d[1..];
      DistinctCountsOnce(d[1..], x);
    }
  }

  /** Every token is counted once by the distinct list: the counts add up to the length. */
  lemma {:induction false} CountSumOfDistinct(ws: seq<String>)
    ensures CountSum(Distinct(ws), ws) == |ws|
  {
    if ws != [] {
      var p := ws[..|ws| - 1];
      var x := ws[|ws| - 1];
      assert ws == p + [x];
      var d := Distinct(p);
      DistinctMeaning(p);
      CountSumOfDistinct(p);
      CountSumSnoc(d, p, x);
      DistinctCountsOnce(d, x);
      if x !in d {
        CountSumConcat(d, [x], ws);
        assert multiset(ws)[x] == multiset(p)[x] + 1;
      }
    }
  }

  lemma {:induction false} WeightSumOfCounts(d: seq<String>, words: seq<String>)
    requires words != []
    requires forall w :: w in d ==> w in words
    ensures WeightSum(d, TermFrequencies(words).weight) == CountSum(d, words) as real / |words| as real
  {
    if d != [] {
      WeightSumOfCounts(d[1..], words);
      assert Get(TermFrequencies(words).weight, d[0]) == Count(words, d[0]) as real / |words| as real;
      AddFractions(Count(words, d[0]) as real, CountSum(d[1..], words) as real, |words| as real);
    }
  }

  /** The term frequencies of a non-empty token list sum to 1. */
  lemma TermFrequenciesSumToOne(words: seq<String>)
    requires words != []
    ensures WeightSum(TermFrequencies(words).keys, TermFrequencies(words).weight) == 1.0
  {
    var tf := TermFrequencies(words);
    var n := |words|;
    assert tf.keys == Distinct(words);
    assert WeightSum(tf.keys, tf.weight) == CountSum(tf.keys, words) as real / n as real by {
      DistinctMeaning(words);
      WeightSumOfCounts(Distinct(words), words);
    }
    assert CountSum(tf.keys, words) == n by {
      CountSumOfDistinct(words);
    }
    WholeShare(n);
  }

  lemma WholeShare(n: nat)
    requires n > 0
    ensures n as real / n as real == 1.0
  {
  }

  // ---------------------------------------------------------------- IDF

  predicate InSomeDoc(docs: seq<seq<String>>, w: String) {
    exists j :: 0 <= j < |docs| && w in docs[j]
  }

  /** Number of documents containing `w`; a document counts once however often it repeats `w`. */
  function DocCount(docs: seq<seq<String>>, w: String): (n: nat)
    ensures n <= |docs|
    ensures n > 0 <==> InSomeDoc(docs, w)
  {
    if docs == [] then 0
    else
      var p := docs[..|docs| - 1];
      assert forall j :: 0 <= j < |p| ==> p[j] == docs[j];
      DocCount(p, w) + (if w in docs[|docs| - 1] then 1 else 0)
  }

  /** The IDF table: every token of the corpus, weighted by ln(N / df). */
  function InverseDocFrequencies(docs: seq<seq<String>>, ln: real -> real): map<String, real> {
    var vocabulary := set j, w | 0 <= j < |docs| && w in docs[j] :: w;
    map w | w in vocabulary :: ln(|docs| as real / DocCount(docs, w) as real)
  }

  /** The IDF table of an empty corpus is empty; otherwise its keys are exactly the tokens
      of the corpus, each with 1 <= df <= N and weight ln(N / df). */
  lemma InverseDocFrequenciesMeaning(docs: seq<seq<String>>, ln: real -> real)
    ensures docs == [] ==> InverseDocFrequencies(docs, ln) == map[]
    ensures forall w :: w in InverseDocFrequencies(docs, ln) <==> InSomeDoc(docs, w)
    ensures forall w :: w in InverseDocFrequencies(docs, ln) ==>
      1 <= DocCount(docs, w) <= |docs| &&
      InverseDocFrequencies(docs, ln)[w] == ln(|docs| as real / DocCount(docs, w) as real)
  {
    forall w | InSomeDoc(docs, w) ensures w in InverseDocFrequencies(docs, ln) {
      var j :| 0 <= j < |docs| && w in docs[j];
    }
  }

  /** The argument of the logarithm is at least 1, and equals 1 exactly when every document
      contains the token; the weight is then ln(1), which is 0 for the real logarithm. */
  lemma IdfRatioAtLeastOne(docs: seq<seq<String>>, w: String)
    requires InSomeDoc(docs, w)
    ensures |docs| as real / DocCount(docs, w) as real >= 1.0
    ensures |docs| as real / DocCount(docs, w) as real == 1.0 <==> DocCount(docs, w) == |docs|
  {
    RatioAtLeastOne(|docs| as real, DocCount(docs, w) as real);
  }

  lemma RatioAtLeastOne(n: real, df: real)
    requires 0.0 < df <= n
    ensures n / df >= 1.0
    ensures n / df == 1.0 <==> df == n
  {
    assert n / df * df == n;
  }

  /** `wordDocCount.set(word, (wordDocCount.get(word) || 0) + 1)` */
  function Bump(m: map<String, nat>, w: String): map<String, nat> {
    m[w := (if w in m then m[w] else 0) + 1]
  }

  /** The counts after bumping the first `k` tokens of `unique`. */
  function BumpAll(m: map<String, nat>, unique: seq<String>, k: nat): map<String, nat>
    requires k <= |unique|
  {
    if k == 0 then m else Bump(BumpAll(m, unique, k - 1), unique[k - 1])
  }

  /** The document counts after the first `i` documents. */
  function CountDocs(docs: seq<seq<String>>, i: nat): map<String, nat>
    requires i <= |docs|
  {
    if i == 0 then map[]
    else
      var unique := Distinct(docs[i - 1]);
      BumpAll(CountDocs(docs, i - 1), unique, |unique|)
  }

  lemma {:induction false} BumpAllMeaning(m: map<String, nat>, unique: seq<String>, k: nat)
    requires k <= |unique| && NoDuplicates(unique)
    ensures forall w :: w in BumpAll(m, unique, k) <==> w in m || w in unique[..k]
    ensures forall w :: w in BumpAll(m, unique, k) ==>
      BumpAll(m, unique, k)[w] == (if w in m then m[w] else 0) + (if w in unique[..k] then 1 else 0)
  {
    if k > 0 {
      BumpAllMeaning(m, unique, k - 1);
      assert unique[..k] == unique[..k - 1] + [unique[k - 1]];
      assert unique[k - 1] !in unique[..k - 1];
    }
  }

  lemma InSomeDocSnoc(docs: seq<seq<String>>, i: nat, w: String)
    requires i < |docs|
    ensures InSomeDoc(docs[..i + 1], w) <==> InSomeDoc(docs[..i], w) || w in docs[i]
  {
    var next := docs[..i + 1];
    if InSomeDoc(next, w) && w !in docs[i] {
      var j :| 0 <= j < |next| && w in next[j];
      assert next[j] == docs[..i][j];
    }
    if InSomeDoc(docs[..i], w) {
      var j :| 0 <= j < i && w in docs[..i][j];
      assert next[j] == docs[..i][j];
    }
    if w in docs[i] {
      assert w in next[i];
    }
  }

  lemma {:induction false} CountDocsMeaning(docs: seq<seq<String>>, i: nat)
    requires i <= |docs|
    ensures forall w :: w in CountDocs(docs, i) <==> InSomeDoc(docs[..i], w)
    ensures forall w :: w in CountDocs(docs, i) ==> CountDocs(docs, i)[w] == DocCount(docs[..i], w)
  {
    if i > 0 {
      CountDocsMeaning(docs, i - 1);
      var unique := Distinct(docs[i - 1]);
      DistinctMeaning(docs[i - 1]);
      BumpAllMeaning(CountDocs(docs, i - 1), unique, |unique|);
      assert unique[..|unique|] == unique;
      assert docs[..i][..i - 1] == docs[..i - 1];
      forall w ensures InSomeDoc(docs[..i], w) <==> InSomeDoc(docs[..i - 1], w) || w in docs[i - 1] {
        InSomeDocSnoc(docs, i - 1, w);
      }
    }
  }

  /** `calculateIDF`: counts, per token, the documents containing it (each document's tokens
      taken once, through a Set), then stores ln(N / count). */
  method CalculateIDF(docs: seq<seq<String>>, ln: real -> real) returns (idf: map<String, real>)
    ensures idf == InverseDocFrequencies(docs, ln)
  {
    idf := map[];
    var total := |docs|;
    if total == 0 {
      return;
    }
    var docCount: map<String, nat> := map[];
    var i := 0;
    while i < total
      invariant 0 <= i <= total
      invariant docCount == CountDocs(docs, i)
    {
      var unique := Distinct(docs[i]);
      var before := docCount;
      var k := 0;
      while k < |unique|
        invariant 0 <= k <= |unique|
        invariant docCount == BumpAll(before, unique, k)
      {
        docCount := Bump(docCount, unique[k]);
        k := k + 1;
      }
      i := i + 1;
    }
    var pending := docCount.Keys;
    while pending != {}
      invariant pending <= docCount.Keys
      invariant forall w :: w in idf <==> w in docCount && w !in pending
      invariant forall w :: w in idf ==> docCount[w] > 0 && idf[w] == ln(total as real / docCount[w] as real)
      decreases pending
    {
      var w :| w in pending;
      assert docCount[w] > 0 by {
        CountDocsMeaning(docs, i);
        assert docs[..i] == docs;
      }
      idf := idf[w := ln(total as real / docCount[w] as real)];
      pending := pending - {w};
    }
    IdfFromCounts(docs, docCount, idf, ln);
  }

  lemma IdfFromCounts(docs: seq<seq<String>>, counts: map<String, nat>, idf: map<String, real>, ln: real -> real)
    requires counts == CountDocs(docs, |docs|)
    requires forall w :: w in idf <==> w in counts
    requires forall w :: w in idf ==> counts[w] > 0 && idf[w] == ln(|docs| as real / counts[w] as real)
    ensures idf == InverseDocFrequencies(docs, ln)
  {
    var spec := InverseDocFrequencies(docs, ln);
    CountDocsComplete(docs);
    InverseDocFrequenciesMeaning(docs, ln);
    assert idf.Keys == spec.Keys;
    forall w | w in idf ensures idf[w] == spec[w] {
      assert counts[w] == DocCount(docs, w);
    }
  }

  lemma CountDocsComplete(docs: seq<seq<String>>)
    ensures forall w :: w in CountDocs(docs, |docs|) <==> InSomeDoc(docs, w)
    ensures forall w :: w in CountDocs(docs, |docs|) ==> CountDocs(docs, |docs|)[w] == DocCount(docs, w)
  {
    CountDocsMeaning(docs, |docs|);
    assert docs[..|docs|] == docs;
  }

  // ---------------------------------------------------------------- TF-IDF

  /** A token's TF weight times its IDF weight, each 0 when absent. */
  function Weigh(weight: map<String, real>, idf: map<String, real>, w: String): real {
    Get(weight, w) * Get(idf, w)
  }

  /** Every weight multiplied by the token's IDF, or by 0 when the token has none. */
  function Scale(weight: map<String, real>, idf: map<String, real>): map<String, real> {
    map w | w in weight :: Weigh(weight, idf, w)
  }

  /** The TF-IDF table: the TF table's keys, each weighted by its IDF. */
  function WeightedFrequencies(words: seq<String>, idf: map<String, real>): Table {
    var tf := TermFrequencies(words);
    Table(tf.keys, Scale(tf.weight, idf))
  }

  /** The TF-IDF table has exactly the TF table's keys; each weight is the term frequency
      times the IDF, so a token missing from the IDF table weighs 0. */
  lemma WeightedFrequenciesMeaning(words: seq<String>, idf: map<String, real>)
    ensures WeightedFrequencies(words, idf).keys == Distinct(words)
    ensures forall w :: w in WeightedFrequencies(words, idf).weight <==> w in words
    ensures forall w :: w in WeightedFrequencies(words, idf).weight && w !in idf ==>
      WeightedFrequencies(words, idf).weight[w] == 0.0
    ensures forall w :: w in WeightedFrequencies(words, idf).weight ==>
      WeightedFrequencies(words, idf).weight[w] == TermFrequencies(words).weight[w] * Get(idf, w)
  {
    var v := WeightedFrequencies(words, idf);
    assert forall w :: w in v.weight ==> v.weight[w] == TermFrequencies(words).weight[w] * Get(idf, w);
    TermFrequenciesMeaning(words);
  }

  /** The table `calculateTFIDF` has built after copying the first `i` TF entries. */
  function CopyWeighted(tf: Table, idf: map<String, real>, i: nat): Table
    requires i <= |tf.keys|
  {
    if i == 0 then Table([], map[])
    else
      var v := CopyWeighted(tf, idf, i - 1);
      var w := tf.keys[i - 1];
      Table(v.keys + [w], v.weight[w := Weigh(tf.weight, idf, w)])
  }

  /** `calculateTFIDF`: copies the TF table entry by entry, multiplied by the IDF weight. */
  method CalculateTFIDF(words: seq<String>, idf: map<String, real>) returns (v: Table)
    ensures v == WeightedFrequencies(words, idf)
  {
    var tf := CalculateTF(words);
    v := Table([], map[]);
    var i := 0;
    while i < |tf.keys|
      invariant 0 <= i <= |tf.keys|
      invariant v == CopyWeighted(tf, idf, i)
    {
      var w := tf.keys[i];
      v := Table(v.keys + [w], v.weight[w := Weigh(tf.weight, idf, w)]);
      i := i + 1;
    }
    CopyWeightedIsWeightedFrequencies(words, idf);
  }

  lemma CopyWeightedMeaning(tf: Table, idf: map<String, real>, i: nat)
    requires i <= |tf.keys|
    ensures CopyWeighted(tf, idf, i).keys == tf.keys[..i]
    ensures forall w :: w in CopyWeighted(tf, idf, i).weight <==> w in tf.keys[..i]
    ensures forall w :: w in CopyWeighted(tf, idf, i).weight ==>
      CopyWeighted(tf, idf, i).weight[w] == Weigh(tf.weight, idf, w)
  {
    CopyWeightedKeys(tf, idf, i);
    CopyWeightedDomain(tf, idf, i);
    CopyWeightedValues(tf, idf, i);
  }

  lemma {:induction false} CopyWeightedKeys(tf: Table, idf: map<String, real>, i: nat)
    requires i <= |tf.keys|
    ensures CopyWeighted(tf, idf, i).keys == tf.keys[..i]
  {
    if i > 0 {
      CopyWeightedKeys(tf, idf, i - 1);
      assert tf.keys[..i] == tf.keys[..i - 1] + [tf.keys[i - 1]];
    }
  }

  lemma {:induction false} CopyWeightedDomain(tf: Table, idf: map<String, real>, i: nat)
    requires i <= |tf.keys|
    ensures forall w :: w in CopyWeighted(tf, idf, i).weight <==> w in CopyWeighted(tf, idf, i).keys
  {
    if i > 0 {
      CopyWeightedDomain(tf, idf, i - 1);
      var before := CopyWeighted(tf, idf, i - 1);
      var x := tf.keys[i - 1];
      forall w ensures w in before.keys + [x] <==> w in before.keys || w == x {
      }
    }
  }

  lemma {:induction false} CopyWeightedValues(tf: Table, idf: map<String, real>, i: nat)
    requires i <= |tf.keys|
    ensures forall w :: w in CopyWeighted(tf, idf, i).weight ==>
      CopyWeighted(tf, idf, i).weight[w] == Weigh(tf.weight, idf, w)
  {
    if i > 0 {
      CopyWeightedValues(tf, idf, i - 1);
      var before := CopyWeighted(tf, idf, i - 1).weight;
      var x := tf.keys[i - 1];
      assert CopyWeighted(tf, idf, i).weight == before[x := Weigh(tf.weight, idf, x)];
      forall w | w in before[x := Weigh(tf.weight, idf, x)]
        ensures before[x := Weigh(tf.weight, idf, x)][w] == Weigh(tf.weight, idf, w)
      {
        if w != x {
          assert w in before;
        }
      }
    }
  }

  lemma CopyWeightedIsWeightedFrequencies(words: seq<String>, idf: map<String, real>)
    ensures var tf := TermFrequencies(words);
      CopyWeighted(tf, idf, |tf.keys|) == WeightedFrequencies(words, idf)
  {
    var tf := TermFrequencies(words);
    var c := CopyWeighted(tf, idf, |tf.keys|);
    var spec := WeightedFrequencies(words, idf);
    assert spec == Table(tf.keys, Scale(tf.weight, idf));
    assert c.keys == tf.keys && forall w :: w in c.weight <==> w in tf.keys by {
      CopyWeightedMeaning(tf, idf, |tf.keys|);
      assert tf.keys[..|tf.keys|] == tf.keys;
    }
    assert forall w :: w in tf.keys <==> w in tf.weight by {
      TermFrequenciesMeaning(words);
      DistinctMeaning(words);
    }
    assert c.weight == spec.weight by {
      CopyWeightedMeaning(tf, idf, |tf.keys|);
      assert c.weight.Keys == spec.weight.Keys;
    }
  }

  // ---------------------------------------------------------------- cosine

  /** Sum over `keys` of the products of the two tables' values (absent counts as 0). */
  function DotSum(keys: seq<String>, m1: map<String, real>, m2: map<String, real>): real {
    if keys == [] then 0.0 else Product(m1, m2, keys[0]) + DotSum(keys[1..], m1, m2)
  }

  /** `(m1.get(w) || 0) * (m2.get(w) || 0)` */
  function Product(m1: map<String, real>, m2: map<String, real>, w: String): real {
    Get(m1, w) * Get(m2, w)
  }

  /** `cosineSimilarity` over the union of both key lists, in Set order. */
  function Cosine(v1: Table, v2: Table, sqrt: real -> real): real {
    var all := Distinct(v1.keys + v2.keys);
    if |all| == 0 then 0.0
    else
      var magnitude := Magnitude(all, v1, v2, sqrt);
      if magnitude == 0.0 then 0.0 else DotSum(all, v1.weight, v2.weight) / magnitude
  }

  /** The product of the two vectors' Euclidean norms over `all`. */
  function Magnitude(all: seq<String>, v1: Table, v2: Table, sqrt: real -> real): real {
    sqrt(DotSum(all, v1.weight, v1.weight)) * sqrt(DotSum(all, v2.weight, v2.weight))
  }

  /** One more key of the loop adds the product of its two values to the running sum. */
  lemma DotSumStep(all: seq<String>, i: nat, m1: map<String, real>, m2: map<String, real>,
                   acc: real, x: real, y: real)
    requires i < |all| && acc == DotSum(all[..i], m1, m2)
    requires x == Get(m1, all[i]) && y == Get(m2, all[i])
    ensures acc + x * y == DotSum(all[..i + 1], m1, m2)
  {
    assert all[..i + 1] == all[..i] + [all[i]];
    DotSumSnoc(all[..i], all[i], m1, m2);
  }

  /** With the three sums over all keys, the similarity is the dot product over the
      magnitude, or 0 when the magnitude is 0. */
  lemma CosineFromSums(v1: Table, v2: Table, sqrt: real -> real, dot: real, mag1: real, mag2: real)
    requires Distinct(v1.keys + v2.keys) != []
    requires dot == DotSum(Distinct(v1.keys + v2.keys), v1.weight, v2.weight)
    requires mag1 == DotSum(Distinct(v1.keys + v2.keys), v1.weight, v1.weight)
    requires mag2 == DotSum(Distinct(v1.keys + v2.keys), v2.weight, v2.weight)
    ensures Cosine(v1, v2, sqrt)
      == if sqrt(mag1) * sqrt(mag2) == 0.0 then 0.0 else dot / (sqrt(mag1) * sqrt(mag2))
  {
    var all := Distinct(v1.keys + v2.keys);
    assert Magnitude(all, v1, v2, sqrt) == sqrt(mag1) * sqrt(mag2);
  }

  /** `cosineSimilarity`: accumulates the dot product and both squared magnitudes in one loop. */
  method CosineSimilarity(v1: Table, v2: Table, sqrt: real -> real) returns (r: real)
    ensures r == Cosine(v1, v2, sqrt)
  {
    var all := Distinct(v1.keys + v2.keys);
    if |all| == 0 {
      return 0.0;
    }
    var dot, mag1, mag2 := 0.0, 0.0, 0.0;
    var i := 0;
    while i < |all|
      invariant 0 <= i <= |all|
      invariant dot == DotSum(all[..i], v1.weight, v2.weight)
      invariant mag1 == DotSum(all[..i], v1.weight, v1.weight)
      invariant mag2 == DotSum(all[..i], v2.weight, v2.weight)
    {
      var word := all[i];
      var val1 := Get(v1.weight, word);
      var val2 := Get(v2.weight, word);
      DotSumStep(all, i, v1.weight, v2.weight, dot, val1, val2);
      DotSumStep(all, i, v1.weight, v1.weight, mag1, val1, val1);
      DotSumStep(all, i, v2.weight, v2.weight, mag2, val2, val2);
      dot := dot + val1 * val2;
      mag1 := mag1 + val1 * val1;
      mag2 := mag2 + val2 * val2;
      i := i + 1;
    }
    assert all[..i] == all;
    CosineFromSums(v1, v2, sqrt, dot, mag1, mag2);
    var magnitude := sqrt(mag1) * sqrt(mag2);
    if magnitude == 0.0 {
      return 0.0;
    }
    r := dot / magnitude;
  }

  /** Two empty vectors, or a vector of zero norm (its squared weights sum to 0), have
      similarity 0. */
  lemma CosineZeroCases(v1: Table, v2: Table, sqrt: real -> real)
    ensures v1.keys == [] && v2.keys == [] ==> Cosine(v1, v2, sqrt) == 0.0
    ensures (sqrt(0.0) == 0.0 &&
             (DotSum(Distinct(v1.keys + v2.keys), v1.weight, v1.weight) == 0.0 ||
              DotSum(Distinct(v1.keys + v2.keys), v2.weight, v2.weight) == 0.0)) ==> Cosine(v1, v2, sqrt) == 0.0
  {
    var all := Distinct(v1.keys + v2.keys);
    if v1.keys == [] && v2.keys == [] {
      assert v1.keys + v2.keys == [];
    }
    if |all| > 0 && sqrt(0.0) == 0.0 {
      var m1 := sqrt(DotSum(all, v1.weight, v1.weight));
      var m2 := sqrt(DotSum(all, v2.weight, v2.weight));
      ZeroProduct(m1, m2);
    }
  }

  lemma ZeroProduct(a: real, b: real)
    ensures a == 0.0 || b == 0.0 ==> a * b == 0.0
  {
  }

  lemma {:induction false} DotSumConcat(a: seq<String>, b: seq<String>, m1: map<String, real>, m2: map<String, real>)
    ensures DotSum(a + b, m1, m2) == DotSum(a, m1, m2) + DotSum(b, m1, m2)
  {
    if a == [] {
      assert a + b == b;
    } else {
      assert (a + b)[1..] == a[1..] + b;
      DotSumConcat(a[1..], b, m1, m2);
    }
  }

  lemma DotSumSnoc(keys: seq<String>, w: String, m1: map<String, real>, m2: map<String, real>)
    ensures DotSum(keys + [w], m1, m2) == DotSum(keys, m1, m2) + Product(m1, m2, w)
  {
    DotSumConcat(keys, [w], m1, m2);
    assert [w][1..] == [];
  }

  lemma {:induction false} DotSumSwap(keys: seq<String>, m1: map<String, real>, m2: map<String, real>)
    ensures DotSum(keys, m1, m2) == DotSum(keys, m2, m1)
  {
    if keys != [] {
      DotSumSwap(keys[1..], m1, m2);
    }
  }

  /** Removing position `j` of a duplicate-free list removes exactly its element. */
  lemma RemoveAt(b: seq<String>, j: nat)
    requires NoDuplicates(b) && j < |b|
    ensures NoDuplicates(b[..j] + b[j + 1..])
    ensures forall w :: w in b[..j] + b[j + 1..] <==> w in b && w != b[j]
  {
    var rest := b[..j] + b[j + 1..];
    forall w | w in rest ensures w in b && w != b[j] {
      var k :| 0 <= k < |rest| && rest[k] == w;
      if k < j { assert rest[k] == b[k]; } else { assert rest[k] == b[k + 1]; }
    }
    forall w | w in b && w != b[j] ensures w in rest {
      var k :| 0 <= k < |b| && b[k] == w;
      if k < j { assert rest[k] == b[k]; } else { assert rest[k - 1] == b[k]; }
    }
    forall p, q | 0 <= p < q < |rest| ensures rest[p] != rest[q] {
      var p' := if p < j then p else p + 1;
      var q' := if q < j then q else q + 1;
      assert rest[p] == b[p'] && rest[q] == b[q'];
    }
  }

  /** The sum is the product at position `j` plus the sum over the other keys. */
  lemma DotSumRemove(b: seq<String>, j: nat, m1: map<String, real>, m2: map<String, real>)
    requires j < |b|
    ensures DotSum(b, m1, m2) == Product(m1, m2, b[j]) + DotSum(b[..j] + b[j + 1..], m1, m2)
  {
    assert b == b[..j] + [b[j]] + b[j + 1..];
    DotSumConcat(b[..j] + [b[j]], b[j + 1..], m1, m2);
    DotSumConcat(b[..j], [b[j]], m1, m2);
    DotSumConcat(b[..j], b[j + 1..], m1, m2);
    assert DotSum([b[j]], m1, m2) == Product(m1, m2, b[j]);
  }

  /** The sum does not depend on the order of the keys. */
  lemma {:induction false} DotSumReorder(a: seq<String>, b: seq<String>, m1: map<String, real>, m2: map<String, real>)
    requires NoDuplicates(a) && NoDuplicates(b)
    requires forall w :: w in a <==> w in b
    ensures DotSum(a, m1, m2) == DotSum(b, m1, m2)
    decreases |a|
  {
    if a == [] {
      SameLength(a, b);
    } else {
      var x := a[0];
      assert x in b;
      var j :| 0 <= j < |b| && b[j] == x;
      var rest := b[..j] + b[j + 1..];
      DotSumRemove(b, j, m1, m2);
      RemoveAt(b, j);
      RemoveAt(a, 0);
      assert a[..0] + a[1..] == a[1..];
      forall w ensures w in a[1..] <==> w in rest {
        assert w in a[1..] <==> w in a && w != x;
        assert w in rest <==> w in b && w != x;
      }
      DotSumReorder(a[1..], rest, m1, m2);
    }
  }

  lemma ProductSwap(x: real, y: real)
    ensures x * y == y * x
  {
  }

  /** Two duplicate-free lists with the same elements have the same length. */
  lemma SameLength(a: seq<String>, b: seq<String>)
    requires NoDuplicates(a) && NoDuplicates(b)
    requires forall w :: w in a <==> w in b
    ensures |a| == |b|
  {
    assert |a| == |set w | w in a| by { DistinctCardinality(a); }
    assert |b| == |set w | w in b| by { DistinctCardinality(b); }
    assert (set w | w in a) == (set w | w in b);
  }

  lemma {:induction false} DistinctCardinality(a: seq<String>)
    requires NoDuplicates(a)
    ensures |set w | w in a| == |a|
  {
    if a != [] {
      var p := a[..|a| - 1];
      var x := a[|a| - 1];
      assert a == p + [x];
      DistinctCardinality(p);
      assert (set w | w in a) == (set w | w in p) + {x};
      assert x !in p;
    }
  }

  /** Cosine similarity is symmetric. */
  lemma CosineIsSymmetric(v1: Table, v2: Table, sqrt: real -> real)
    ensures Cosine(v1, v2, sqrt) == Cosine(v2, v1, sqrt)
  {
    var a := Distinct(v1.keys + v2.keys);
    var b := Distinct(v2.keys + v1.keys);
    assert |a| == |b| &&
      DotSum(a, v1.weight, v2.weight) == DotSum(b, v2.weight, v1.weight) &&
      DotSum(a, v1.weight, v1.weight) == DotSum(b, v1.weight, v1.weight) &&
      DotSum(a, v2.weight, v2.weight) == DotSum(b, v2.weight, v2.weight) by {
      DistinctMeaning(v1.keys + v2.keys);
      DistinctMeaning(v2.keys + v1.keys);
      DotSumReorder(a, b, v1.weight, v2.weight);
      DotSumSwap(b, v1.weight, v2.weight);
      DotSumReorder(a, b, v1.weight, v1.weight);
      DotSumReorder(a, b, v2.weight, v2.weight);
      SameLength(a, b);
    }
    assert Magnitude(a, v1, v2, sqrt) == Magnitude(b, v2, v1, sqrt) by {
      ProductSwap(sqrt(DotSum(b, v1.weight, v1.weight)), sqrt(DotSum(b, v2.weight, v2.weight)));
    }
  }

  // ---------------------------------------------------------------- pairwise similarity

  /** `calculateSimilarity`: 0 when either text has no tokens; otherwise the cosine of the
      TF-IDF vectors under the shared IDF when one is given, or under an IDF built from
      just the two token lists. A given table is used even when empty. */
  function Similarity(text1: String, text2: String, shared: Option<map<String, real>>,
                      ln: real -> real, sqrt: real -> real): real
  {
    var words1 := Tokenizer.ExtractWords(text1);
    var words2 := Tokenizer.ExtractWords(text2);
    if words1 == [] || words2 == [] then 0.0
    else
      var idf := if shared.Some? then shared.value else InverseDocFrequencies([words1, words2], ln);
      Cosine(WeightedFrequencies(words1, idf), WeightedFrequencies(words2, idf), sqrt)
  }

  method CalculateSimilarity(text1: String, text2: String, shared: Option<map<String, real>>,
                             ln: real -> real, sqrt: real -> real) returns (r: real)
    ensures Tokenizer.ExtractWords(text1) == [] || Tokenizer.ExtractWords(text2) == [] ==> r == 0.0
    ensures r == Similarity(text1, text2, shared, ln, sqrt)
  {
    var words1 := Tokenizer.ExtractWords(text1);
    var words2 := Tokenizer.ExtractWords(text2);
    if |words1| == 0 || |words2| == 0 {
      return 0.0;
    }
    var idf;
    if shared.Some? {
      idf := shared.value;
    } else {
      idf := CalculateIDF([words1, words2], ln);
    }
    var vector1 := CalculateTFIDF(words1, idf);
    var vector2 := CalculateTFIDF(words2, idf);
    r := CosineSimilarity(vector1, vector2, sqrt);
  }

  /** The IDF built from two token lists does not depend on their order. */
  lemma PairIdfSymmetric(words1: seq<String>, words2: seq<String>, ln: real -> real)
    ensures InverseDocFrequencies([words1, words2], ln) == InverseDocFrequencies([words2, words1], ln)
  {
    var a := InverseDocFrequencies([words1, words2], ln);
    var b := InverseDocFrequencies([words2, words1], ln);
    InverseDocFrequenciesMeaning([words1, words2], ln);
    InverseDocFrequenciesMeaning([words2, words1], ln);
    forall w ensures (w in a <==> w in b) && (w in a ==> a[w] == b[w]) {
      PairDocFacts(words1, words2, w);
    }
    assert a.Keys == b.Keys;
  }

  /** Swapping the two documents changes neither whether a token occurs nor its count. */
  lemma PairDocFacts(words1: seq<String>, words2: seq<String>, w: String)
    ensures InSomeDoc([words1, words2], w) <==> InSomeDoc([words2, words1], w)
    ensures DocCount([words1, words2], w) == DocCount([words2, words1], w)
  {
    var d, e := [words1, words2], [words2, words1];
    assert d[0] == words1 && d[1] == words2 && e[0] == words2 && e[1] == words1;
    assert d[..1] == [words1] && e[..1] == [words2];
    assert [words1][..0] == [] && [words2][..0] == [];
  }

  /** The pairwise score does not depend on the order of the two texts. */
  lemma SimilarityIsSymmetric(text1: String, text2: String, shared: Option<map<String, real>>,
                              ln: real -> real, sqrt: real -> real)
    ensures Similarity(text1, text2, shared, ln, sqrt) == Similarity(text2, text1, shared, ln, sqrt)
  {
    var words1 := Tokenizer.ExtractWords(text1);
    var words2 := Tokenizer.ExtractWords(text2);
    if words1 != [] && words2 != [] {
      var idf := if shared.Some? then shared.value else InverseDocFrequencies([words1, words2], ln);
      PairIdfSymmetric(words1, words2, ln);
      CosineIsSymmetric(WeightedFrequencies(words1, idf), WeightedFrequencies(words2, idf), sqrt);
    }
  }
}
