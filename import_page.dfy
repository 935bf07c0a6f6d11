/** The import page's `handleImport`: the highlights previewed from a Notion page are
    compared with the stored ones by a normalized key, the duplicates are skipped and the
    rest are inserted in batches of ten, the progress counter following each batch. */
module ImportPage {
  import opened Text
  import opened Wrappers
  import opened Sequences
  import PageSplit

  /** A previewed highlight, as the import route returns it. */
  type Preview = PageSplit.Highlight

  /** A stored highlight as the page reads it: `text` and `html_content`, either null. */
  datatype StoredRow = StoredRow(text: Option<String>, html: Option<String>)

  /** `x?.trim().toLowerCase() || ''` and `x.trim().toLowerCase()`. */
  function Normalized(s: String): String {
    ToLower(Trim(s))
  }

  // ---------------------------------------------------------------------------
  // Keys and duplicates
  // ---------------------------------------------------------------------------

  /** The key of a stored highlight: its normalized text, or its normalized html when the
      text normalizes to the empty string. */
  function KeyOf(row: StoredRow): String {
    var text := Normalized(OrEmpty(row.text));
    var html := Normalized(OrEmpty(row.html));
    if text != [] then text else html
  }

  /** `existingTexts`: the set of the keys of all stored highlights. */
  function ExistingKeys(rows: seq<StoredRow>): set<String> {
    set r | r in rows :: KeyOf(r)
  }

  /** `textMatch || htmlMatch`: the preview's non-empty normalized text or html is a key. */
  predicate IsDuplicate(p: Preview, keys: set<String>) {
    var textNormalized := Normalized(p.text);
    var htmlNormalized := Normalized(p.html);
    (textNormalized != [] && textNormalized in keys) || (htmlNormalized != [] && htmlNormalized in keys)
  }

  /** `newHighlights`: the previews that are not duplicates, in preview order. */
  function Kept(preview: seq<Preview>, keys: set<String>): (r: seq<Preview>)
    ensures |r| <= |preview|
    decreases |preview|
  {
    if preview == [] then []
    else (if IsDuplicate(preview[0], keys) then [] else [preview[0]]) + Kept(preview[1..], keys)
  }

  /** A preview is kept exactly when it is one of the previews and no stored highlight has
      its normalized text or html as key. */
  lemma {:induction false} KeptMembership(preview: seq<Preview>, rows: seq<StoredRow>, p: Preview)
    ensures p in Kept(preview, ExistingKeys(rows)) <==>
      p in preview && forall r :: r in rows ==>
        (Normalized(p.text) == [] || Normalized(p.text) != KeyOf(r))
        && (Normalized(p.html) == [] || Normalized(p.html) != KeyOf(r))
    decreases |preview|
  {
    var keys := ExistingKeys(rows);
    if preview != [] {
      KeptMembership(preview[1..], rows, p);
      assert preview == [preview[0]] + preview[1..];
      if p == preview[0] && IsDuplicate(p, keys) {
        var t := Normalized(p.text);
        var h := Normalized(p.html);
        if t != [] && t in keys {
          var r :| r in rows && KeyOf(r) == t;
        } else {
          var r :| r in rows && KeyOf(r) == h;
        }
      }
    }
  }

  /** Filtering keeps the order: the kept previews of two parts are those of the first
      part followed by those of the second. */
  lemma {:induction false} KeptAppend(a: seq<Preview>, b: seq<Preview>, keys: set<String>)
    ensures Kept(a + b, keys) == Kept(a, keys) + Kept(b, keys)
    decreases |a|
  {
    if a == [] {
      assert a + b == b;
    } else {
      KeptAppend(a[1..], b, keys);
      assert (a + b)[0] == a[0];
      assert (a + b)[1..] == a[1..] + b;
      AppendAssoc(if IsDuplicate(a[0], keys) then [] else [a[0]], Kept(a[1..], keys), Kept(b, keys));
    }
  }

  /** A preview whose normalized text is the normalized, non-blank text of a stored
      highlight is skipped. */
  lemma SameTextIsSkipped(preview: seq<Preview>, rows: seq<StoredRow>, p: Preview, r: StoredRow)
    requires r in rows && Normalized(OrEmpty(r.text)) != [] && Normalized(p.text) == Normalized(OrEmpty(r.text))
    ensures p !in Kept(preview, ExistingKeys(rows))
  {
    KeptMembership(preview, rows, p);
  }

  /** A stored highlight with a blank text is keyed by its html, which also catches a
      preview whose text normalizes to that html. */
  lemma BlankTextKeyedByHtml(preview: seq<Preview>, rows: seq<StoredRow>, p: Preview, r: StoredRow)
    requires r in rows && Normalized(OrEmpty(r.text)) == [] && Normalized(OrEmpty(r.html)) != []
    requires Normalized(p.text) == Normalized(OrEmpty(r.html)) || Normalized(p.html) == Normalized(OrEmpty(r.html))
    ensures p !in Kept(preview, ExistingKeys(rows))
  {
    KeptMembership(preview, rows, p);
  }

  // ---------------------------------------------------------------------------
  // Batches
  // ---------------------------------------------------------------------------

  const BatchSize: nat := 10

  /** The consecutive slices `xs.slice(i, i + 10)` for `i = 0, 10, 20, ...`. */
  function Batches<T>(xs: seq<T>): seq<seq<T>>
    decreases |xs|
  {
    if xs == [] then []
    else if |xs| <= BatchSize then [xs]
    else [xs[..BatchSize]] + Batches(xs[BatchSize..])
  }

  /** The batches cover the list exactly once and in order, each holds one to ten
      elements, and there are `ceil(n / 10)` of them. */
  lemma {:induction false} BatchesMeaning<T>(xs: seq<T>)
    ensures Concat(Batches(xs)) == xs
    ensures forall b :: b in Batches(xs) ==> 1 <= |b| <= BatchSize
    ensures |Batches(xs)| == (|xs| + BatchSize - 1) / BatchSize
    decreases |xs|
  {
    if |xs| > BatchSize {
      BatchesMeaning(xs[BatchSize..]);
      assert xs == xs[..BatchSize] + xs[BatchSize..];
    }
  }

  /** After `j` batches, `min(10 j, n)` elements have been inserted. */
  lemma {:induction false} InsertedAfter<T>(xs: seq<T>, j: nat)
    requires j <= |Batches(xs)|
    ensures |Concat(Batches(xs)[..j])| == Min(BatchSize * j, |xs|)
    decreases |xs|
  {
    if j > 0 {
      if |xs| <= BatchSize {
        assert Batches(xs)[..j] == [xs];
      } else {
        var rest := xs[BatchSize..];
        InsertedAfter(rest, j - 1);
        assert Batches(xs)[..j] == [xs[..BatchSize]] + Batches(rest)[..j - 1];
      }
    }
  }

  /** The batch the loop takes at position `i`: the first batch of the rest. */
  lemma BatchesStep<T>(xs: seq<T>, i: nat)
    requires i < |xs|
    ensures Batches(xs[i..]) == [xs[i..Min(i + BatchSize, |xs|)]] + Batches(xs[Min(i + BatchSize, |xs|)..])
  {
    var rest := xs[i..];
    if |rest| > BatchSize {
      assert rest[..BatchSize] == xs[i..i + BatchSize];
      assert rest[BatchSize..] == xs[i + BatchSize..];
    } else {
      assert xs[i..Min(i + BatchSize, |xs|)] == rest;
      assert xs[Min(i + BatchSize, |xs|)..] == [];
    }
  }

  // ---------------------------------------------------------------------------
  // Inserting
  // ---------------------------------------------------------------------------

  /** One row of the insert: trimmed text, trimmed html or null, the form's source and
      author or null, and zeroed counters. */
  datatype NewRow = NewRow(text: String, html: Option<String>, source: Option<String>, author: Option<String>,
                           resurfaceCount: nat, averageRating: nat, ratingCount: nat)

  /** `s.trim() || null`. */
  function OrNull(s: String): (r: Option<String>)
    ensures r.None? <==> Trim(s) == []
  {
    if Trim(s) != [] then Some(Trim(s)) else None
  }

  function RowOf(p: Preview, source: String, author: String): NewRow {
    NewRow(Trim(p.text), OrNull(p.html), OrNull(source), OrNull(author), 0, 0, 0)
  }

  /** `batch.map(...)`. */
  function Rows(batch: seq<Preview>, source: String, author: String): (r: seq<NewRow>)
    ensures |r| == |batch|
  {
    seq(|batch|, i requires 0 <= i < |batch| => RowOf(batch[i], source, author))
  }

  /** The rows of two parts are the rows of the first followed by those of the second. */
  lemma RowsAppend(a: seq<Preview>, b: seq<Preview>, source: String, author: String)
    ensures Rows(a + b, source, author) == Rows(a, source, author) + Rows(b, source, author)
  {
  }

  /** The rows of every batch. */
  function BatchRows(batches: seq<seq<Preview>>, source: String, author: String): (r: seq<seq<NewRow>>)
    ensures |r| == |batches|
  {
    seq(|batches|, j requires 0 <= j < |batches| => Rows(batches[j], source, author))
  }

  /** Inserting the rows batch by batch inserts the rows of all kept previews, in order. */
  lemma {:induction false} BatchRowsConcat(batches: seq<seq<Preview>>, source: String, author: String)
    ensures Concat(BatchRows(batches, source, author)) == Rows(Concat(batches), source, author)
    decreases |batches|
  {
    if batches != [] {
      BatchRowsConcat(batches[1..], source, author);
      assert BatchRows(batches, source, author)[1..] == BatchRows(batches[1..], source, author);
      RowsAppend(batches[0], Concat(batches[1..]), source, author);
    }
  }

  /** The batch loop: every batch is inserted, `imported` grows by the batch's size and
      the progress shown after batch `j` is the number of previews inserted so far. */
  method InsertBatches(newHighlights: seq<Preview>, source: String, author: String)
    returns (inserts: seq<seq<NewRow>>, progress: seq<nat>, imported: nat)
    ensures inserts == BatchRows(Batches(newHighlights), source, author)
    ensures |progress| == |inserts|
    ensures forall j :: 0 <= j < |progress| ==> progress[j] == Min(BatchSize * (j + 1), |newHighlights|)
    ensures imported == |newHighlights|
  {
    var n := |newHighlights|;
    ghost var done: seq<seq<Preview>> := [];
    inserts := [];
    progress := [];
    imported := 0;
    var i := 0;
    while i < n
      invariant i == BatchSize * |done| && imported == Min(i, n)
      invariant done + Batches(newHighlights[Min(i, n)..]) == Batches(newHighlights)
      invariant inserts == BatchRows(done, source, author)
      invariant |progress| == |done|
      invariant forall j :: 0 <= j < |progress| ==> progress[j] == Min(BatchSize * (j + 1), n)
    {
      var batch := newHighlights[i..Min(i + BatchSize, n)];
      BatchesStep(newHighlights, i);
      AppendAssoc(done, [batch], Batches(newHighlights[Min(i + BatchSize, n)..]));
      var highlightsToInsert := Rows(batch, source, author);
      inserts := inserts + [highlightsToInsert];
      done := done + [batch];
      imported := imported + |batch|;
      progress := progress + [imported];
      i := i + BatchSize;
    }
  }

  // ---------------------------------------------------------------------------
  // handleImport
  // ---------------------------------------------------------------------------

  /** What `handleImport` does: nothing for an empty preview, an alert when every preview
      already exists, or the inserts with the counts of imported and skipped highlights. */
  datatype ImportResult =
    | NothingToImport
    | AllExist(total: nat)
    | Imported(inserts: seq<seq<NewRow>>, imported: nat, skipped: nat)

  function ImportOf(preview: seq<Preview>, rows: seq<StoredRow>, source: String, author: String): ImportResult {
    if preview == [] then NothingToImport
    else
      var kept := Kept(preview, ExistingKeys(rows));
      if kept == [] then AllExist(|preview|)
      else Imported(BatchRows(Batches(kept), source, author), |kept|, |preview| - |kept|)
  }

  /** `handleImport`, with the read of the stored highlights and every insert succeeding. */
  method HandleImport(preview: seq<Preview>, rows: seq<StoredRow>, source: String, author: String)
    returns (r: ImportResult)
    ensures r == ImportOf(preview, rows, source, author)
  {
    if |preview| == 0 {
      return NothingToImport;
    }
    var existingTexts := ExistingKeys(rows);
    var newHighlights := Kept(preview, existingTexts);
    var skipped := |preview| - |newHighlights|;
    if |newHighlights| == 0 {
      return AllExist(|preview|);
    }
    var inserts, progress, imported := InsertBatches(newHighlights, source, author);
    r := Imported(inserts, imported, skipped);
  }

  /** No insert happens when nothing is new; otherwise the inserts hold the rows of the
      kept previews exactly once and in order, in batches of one to ten, and the imported
      and skipped counts add up to the preview's length. */
  lemma ImportMeaning(preview: seq<Preview>, rows: seq<StoredRow>, source: String, author: String)
    ensures var r := ImportOf(preview, rows, source, author);
      && (r.NothingToImport? <==> preview == [])
      && (r.AllExist? <==> preview != [] && forall p :: p in preview ==> IsDuplicate(p, ExistingKeys(rows)))
      && (r.Imported? ==>
            var kept := Kept(preview, ExistingKeys(rows));
            && Concat(r.inserts) == Rows(kept, source, author)
            && (forall b :: b in r.inserts ==> 1 <= |b| <= BatchSize)
            && r.imported + r.skipped == |preview|
            && r.imported > 0)
  {
    var keys := ExistingKeys(rows);
    var kept := Kept(preview, keys);
    KeptEmpty(preview, keys);
    if kept != [] {
      BatchesMeaning(kept);
      BatchRowsConcat(Batches(kept), source, author);
      var bs := BatchRows(Batches(kept), source, author);
      forall b | b in bs ensures 1 <= |b| <= BatchSize {
        var j :| 0 <= j < |bs| && bs[j] == b;
        assert Batches(kept)[j] in Batches(kept);
      }
    }
  }

  /** Nothing is kept exactly when every preview is a duplicate. */
  lemma {:induction false} KeptEmpty(preview: seq<Preview>, keys: set<String>)
    ensures Kept(preview, keys) == [] <==> forall p :: p in preview ==> IsDuplicate(p, keys)
    decreases |preview|
  {
    if preview != [] {
      KeptEmpty(preview[1..], keys);
      assert forall p :: p in preview <==> p == preview[0] || p in preview[1..];
    }
  }
}
